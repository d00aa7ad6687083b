/** The encoder command lines of the main process's `convert-to-gif` handler
    (main.js): the video filter chain (crop, then scale, then fps) and the two
    argument lists that embed it, one for the palette pass and one for the GIF pass. */
module ConvertCommand {
  import opened Wrappers
  import opened Text

  /** The options the renderer sends. For the crop coordinates `cropX` and
      `cropY`, which are compared with `undefined`, a `None` stands for
      `undefined` (no crop selected); in the fields tested for truthiness it
      stands for `undefined` or `NaN` (an unreadable number field), which are
      both falsy. */
  datatype ConvertOptions = ConvertOptions(
    inputPath: string,
    outputPath: string,
    cropX: Option<int>,
    cropY: Option<int>,
    cropWidth: Option<int>,
    cropHeight: Option<int>,
    outputWidth: Option<int>,
    outputHeight: Option<int>,
    fps: Option<int>,
    colors: Option<int>,
    dither: string)

  const DefaultFps: int := 15
  const DefaultColors: int := 256
  const DefaultDither: string := "bayer:bayer_scale=5"

  /** JavaScript truthiness of a number: defined, not NaN and not zero. */
  predicate Truthy(v: Option<int>) {
    v.Some? && v.value != 0
  }

  /** `v || default` */
  function OrDefault(v: Option<int>, default: int): int {
    if Truthy(v) then v.value else default
  }

  /** The crop filter is emitted when x and y are defined and both sides are truthy. */
  predicate HasCrop(o: ConvertOptions) {
    o.cropX.Some? && o.cropY.Some? && Truthy(o.cropWidth) && Truthy(o.cropHeight)
  }

  /** The scale filter is emitted when both output sides are truthy. */
  predicate HasScale(o: ConvertOptions) {
    Truthy(o.outputWidth) && Truthy(o.outputHeight)
  }

  function CropFilter(width: int, height: int, x: int, y: int): string {
    "crop=" + (IntToDecimal(width) + ":" + IntToDecimal(height) + ":" + IntToDecimal(x) + ":" + IntToDecimal(y))
  }

  function ScaleFilter(width: int, height: int): string {
    "scale=" + (IntToDecimal(width) + ":" + IntToDecimal(height) + ":" + "flags=lanczos")
  }

  function FpsFilter(fps: int): string {
    "fps=" + IntToDecimal(fps)
  }

  function PaletteGen(colors: int): string {
    "palettegen=" + ("max_colors=" + IntToDecimal(colors))
  }

  /** The name of a filter: the text before its first `=`. */
  function FilterName(filter: string): string {
    Split(filter, '=')[0]
  }

  function FilterNames(filters: seq<string>): seq<string>
  {
    if filters == [] then [] else [FilterName(filters[0])] + FilterNames(filters[1..])
  }

  /** A filter written as `name=` followed by options has that name. */
  lemma NameOf(name: string, options: string)
    requires '=' !in name
    ensures FilterName(name + "=" + options) == name
  {
    SplitSeparator(name, options, '=');
  }

  lemma Join3(a: string, b: string, c: string, sep: char)
    ensures Join([a, b, c], sep) == a + [sep] + b + [sep] + c
  {
    assert [a, b, c][1..] == [b, c];
    assert [b, c][1..] == [c];
    assert Join([b, c], sep) == b + [sep] + c;
    assert Join([a, b, c], sep) == a + [sep] + (b + [sep] + c);
  }

  lemma Join4(a: string, b: string, c: string, d: string, sep: char)
    ensures Join([a, b, c, d], sep) == a + [sep] + b + [sep] + c + [sep] + d
  {
    assert [a, b, c, d][1..] == [b, c, d];
    Join3(b, c, d, sep);
  }

  /** A character that is neither the separator nor in any part is not in the join. */
  lemma {:induction false} NotInJoin(parts: seq<string>, sep: char, c: char)
    requires c != sep
    requires forall i | 0 <= i < |parts| :: c !in parts[i]
    ensures c !in Join(parts, sep)
    decreases |parts|
  {
    if |parts| >= 2 {
      NotInJoin(parts[1..], sep, c);
    }
  }

  /** Decimal fields contain neither `:` nor `,`. */
  lemma DecimalFields(fields: seq<string>, values: seq<int>)
    requires |fields| == |values|
    requires forall i | 0 <= i < |fields| :: fields[i] == IntToDecimal(values[i])
    ensures forall i | 0 <= i < |fields| :: ':' !in fields[i] && ',' !in fields[i]
  {
    forall i | 0 <= i < |fields|
      ensures ':' !in fields[i] && ',' !in fields[i]
    {
      DecimalHasNo(values[i], ':');
      DecimalHasNo(values[i], ',');
    }
  }

  lemma LanczosFlag()
    ensures ':' !in "flags=lanczos" && ',' !in "flags=lanczos"
  {
  }

  function CropOptions(width: int, height: int, x: int, y: int): seq<string> {
    [IntToDecimal(width), IntToDecimal(height), IntToDecimal(x), IntToDecimal(y)]
  }

  function ScaleOptions(width: int, height: int): seq<string> {
    [IntToDecimal(width), IntToDecimal(height), "flags=lanczos"]
  }

  /** The crop filter reads back as `crop` with the options width, height, x, y in that order. */
  lemma CropFilterFields(width: int, height: int, x: int, y: int)
    ensures FilterName(CropFilter(width, height, x, y)) == "crop"
    ensures Split(CropFilter(width, height, x, y)[5..], ':') == CropOptions(width, height, x, y)
    ensures ',' !in CropFilter(width, height, x, y)
  {
    var options := CropOptions(width, height, x, y);
    CropFilterText(width, height, x, y);
    assert "crop=" == "crop" + "=";
    NameOf("crop", Join(options, ':'));
    assert CropFilter(width, height, x, y)[5..] == Join(options, ':');
    DecimalFields(options, [width, height, x, y]);
    SplitJoin(options, ':');
    CropHasNoComma(width, height, x, y);
  }

  lemma CropFilterText(width: int, height: int, x: int, y: int)
    ensures CropFilter(width, height, x, y) == "crop=" + Join(CropOptions(width, height, x, y), ':')
  {
    var options := CropOptions(width, height, x, y);
    Join4(options[0], options[1], options[2], options[3], ':');
  }

  lemma CropHasNoComma(width: int, height: int, x: int, y: int)
    ensures ',' !in CropFilter(width, height, x, y)
  {
    var options := CropOptions(width, height, x, y);
    CropFilterText(width, height, x, y);
    DecimalFields(options, [width, height, x, y]);
    NotInJoin(options, ':', ',');
    assert ',' !in "crop=";
  }

  /** The scale filter reads back as `scale` with the options width, height and the lanczos flag. */
  lemma ScaleFilterFields(width: int, height: int)
    ensures FilterName(ScaleFilter(width, height)) == "scale"
    ensures Split(ScaleFilter(width, height)[6..], ':') == ScaleOptions(width, height)
    ensures ',' !in ScaleFilter(width, height)
  {
    var options := ScaleOptions(width, height);
    ScaleFilterText(width, height);
    assert "scale=" == "scale" + "=";
    NameOf("scale", Join(options, ':'));
    assert ScaleFilter(width, height)[6..] == Join(options, ':');
    ScaleOptionsHaveNo(width, height);
    SplitJoin(options, ':');
    ScaleHasNoComma(width, height);
  }

  lemma ScaleFilterText(width: int, height: int)
    ensures ScaleFilter(width, height) == "scale=" + Join(ScaleOptions(width, height), ':')
  {
    var options := ScaleOptions(width, height);
    Join3(options[0], options[1], options[2], ':');
  }

  lemma ScaleOptionsHaveNo(width: int, height: int)
    ensures forall i | 0 <= i < 3 :: ':' !in ScaleOptions(width, height)[i] && ',' !in ScaleOptions(width, height)[i]
  {
    DecimalHasNo(width, ':');
    DecimalHasNo(width, ',');
    DecimalHasNo(height, ':');
    DecimalHasNo(height, ',');
    LanczosFlag();
  }

  lemma ScaleHasNoComma(width: int, height: int)
    ensures ',' !in ScaleFilter(width, height)
  {
    ScaleFilterText(width, height);
    ScaleOptionsHaveNo(width, height);
    NotInJoin(ScaleOptions(width, height), ':', ',');
    assert ',' !in "scale=";
  }

  /** The fps filter reads back as `fps` with the rate as its only option. */
  lemma FpsFilterFields(fps: int)
    ensures FilterName(FpsFilter(fps)) == "fps"
    ensures FpsFilter(fps)[4..] == IntToDecimal(fps)
    ensures ',' !in FpsFilter(fps)
  {
    assert "fps=" == "fps" + "=";
    NameOf("fps", IntToDecimal(fps));
    DecimalHasNo(fps, ',');
  }

  /** The palette generator's text holds no comma, so it reads back as one filter. */
  lemma PaletteGenFields(colors: int)
    ensures FilterName(PaletteGen(colors)) == "palettegen"
    ensures ',' !in PaletteGen(colors)
  {
    assert "palettegen=" == "palettegen" + "=";
    NameOf("palettegen", "max_colors=" + IntToDecimal(colors));
    DecimalHasNo(colors, ',');
    assert ',' !in "palettegen=max_colors=";
  }

  /** The filter list the handler builds: crop if specified, scale if both
      output sides are given, and always fps last (15 when unset). */
  function Filters(o: ConvertOptions): (filters: seq<string>)
    ensures 1 <= |filters| <= 3
  {
    (if HasCrop(o) then [CropFilter(o.cropWidth.value, o.cropHeight.value, o.cropX.value, o.cropY.value)] else [])
    + (if HasScale(o) then [ScaleFilter(o.outputWidth.value, o.outputHeight.value)] else [])
    + [FpsFilter(OrDefault(o.fps, DefaultFps))]
  }

  /** The filters are named crop (exactly when a crop is specified), then scale
      (exactly when both output sides are given), then fps, always last. */
  lemma FilterOrder(o: ConvertOptions)
    ensures FilterNames(Filters(o)) ==
              (if HasCrop(o) then ["crop"] else []) + (if HasScale(o) then ["scale"] else []) + ["fps"]
  {
    var crop := if HasCrop(o) then [CropFilter(o.cropWidth.value, o.cropHeight.value, o.cropX.value, o.cropY.value)] else [];
    var scale := if HasScale(o) then [ScaleFilter(o.outputWidth.value, o.outputHeight.value)] else [];
    var fps := FpsFilter(OrDefault(o.fps, DefaultFps));
    assert Filters(o) == crop + scale + [fps];
    assert FilterNames(crop) == (if HasCrop(o) then ["crop"] else []) by {
      if HasCrop(o) {
        CropFilterFields(o.cropWidth.value, o.cropHeight.value, o.cropX.value, o.cropY.value);
        FilterNamesOne(crop[0]);
      }
    }
    assert FilterNames(scale) == (if HasScale(o) then ["scale"] else []) by {
      if HasScale(o) {
        ScaleFilterFields(o.outputWidth.value, o.outputHeight.value);
        FilterNamesOne(scale[0]);
      }
    }
    assert FilterNames([fps]) == ["fps"] by {
      FpsFilterFields(OrDefault(o.fps, DefaultFps));
      FilterNamesOne(fps);
    }
    FilterNamesAppend(crop, scale);
    FilterNamesAppend(crop + scale, [fps]);
  }

  lemma FilterNamesOne(filter: string)
    ensures FilterNames([filter]) == [FilterName(filter)]
  {
    assert [filter][1..] == [];
  }

  /** No filter holds a comma, so the joined chain splits back into the list. */
  lemma FiltersHaveNoComma(o: ConvertOptions)
    ensures NoComma(Filters(o))
  {
    var crop := if HasCrop(o) then [CropFilter(o.cropWidth.value, o.cropHeight.value, o.cropX.value, o.cropY.value)] else [];
    var scale := if HasScale(o) then [ScaleFilter(o.outputWidth.value, o.outputHeight.value)] else [];
    var fps := FpsFilter(OrDefault(o.fps, DefaultFps));
    if HasCrop(o) {
      CropHasNoComma(o.cropWidth.value, o.cropHeight.value, o.cropX.value, o.cropY.value);
    }
    if HasScale(o) {
      ScaleHasNoComma(o.outputWidth.value, o.outputHeight.value);
    }
    FpsFilterFields(OrDefault(o.fps, DefaultFps));
    NoCommaAppend(crop, scale);
    NoCommaAppend(crop + scale, [fps]);
  }

  predicate NoComma(filters: seq<string>) {
    forall i | 0 <= i < |filters| :: ',' !in filters[i]
  }

  lemma NoCommaAppend(a: seq<string>, b: seq<string>)
    requires NoComma(a) && NoComma(b)
    ensures NoComma(a + b)
  {
    assert forall i | 0 <= i < |b| :: (a + b)[|a| + i] == b[i];
  }

  /** Naming distributes over concatenation. */
  lemma {:induction false} FilterNamesAppend(a: seq<string>, b: seq<string>)
    ensures FilterNames(a + b) == FilterNames(a) + FilterNames(b)
    decreases |a|
  {
    if a == [] {
      assert a + b == b;
    } else {
      assert (a + b)[1..] == a[1..] + b;
      FilterNamesAppend(a[1..], b);
    }
  }

  /** `videoFilters`, built by conditional pushes onto an empty list. */
  method BuildFilters(o: ConvertOptions) returns (filters: seq<string>)
    ensures filters == Filters(o)
  {
    filters := [];
    if o.cropX.Some? && o.cropY.Some? && Truthy(o.cropWidth) && Truthy(o.cropHeight) {
      filters := filters + [CropFilter(o.cropWidth.value, o.cropHeight.value, o.cropX.value, o.cropY.value)];
    }
    if Truthy(o.outputWidth) && Truthy(o.outputHeight) {
      filters := filters + [ScaleFilter(o.outputWidth.value, o.outputHeight.value)];
    }
    filters := filters + [FpsFilter(OrDefault(o.fps, DefaultFps))];
  }

  /** Appending one part to a non-empty list appends a separator and the part to its join. */
  lemma {:induction false} JoinSnoc(parts: seq<string>, last: string, sep: char)
    requires |parts| >= 1
    ensures Join(parts + [last], sep) == Join(parts, sep) + [sep] + last
    decreases |parts|
  {
    if |parts| == 1 {
      assert (parts + [last])[1..] == [last];
    } else {
      JoinSnoc(parts[1..], last, sep);
      assert (parts + [last])[1..] == parts[1..] + [last];
    }
  }

  /** The palette pass's filter text reads back as the filter list followed by `palettegen`. */
  lemma PalettePassSplits(filters: seq<string>, paletteGen: string)
    requires |filters| >= 1
    requires forall i | 0 <= i < |filters| :: ',' !in filters[i]
    requires ',' !in paletteGen
    ensures Split(Join(filters, ',') + "," + paletteGen, ',') == filters + [paletteGen]
  {
    JoinSnoc(filters, paletteGen, ',');
    SplitJoin(filters + [paletteGen], ',');
  }

  /** The joined chain reads back as the filters, and with `palettegen` appended
      as the filters followed by `palettegen`. */
  lemma ChainReadsBack(filters: seq<string>, colors: int)
    requires |filters| >= 1
    requires NoComma(filters)
    ensures Split(Join(filters, ','), ',') == filters
    ensures Split(Join(filters, ',') + "," + PaletteGen(colors), ',') == filters + [PaletteGen(colors)]
  {
    SplitJoin(filters, ',');
    PaletteGenFields(colors);
    PalettePassSplits(filters, PaletteGen(colors));
  }

  /** The argument lists of the two encoder runs. Both embed the same joined
      filter chain: the palette pass ends it with `palettegen` (256 colours when
      unset), the GIF pass feeds it into `paletteuse` (dither `bayer:bayer_scale=5`
      when unset). */
  method BuildCommands(o: ConvertOptions, paletteFile: string)
    returns (chain: string, paletteArgs: seq<string>, gifArgs: seq<string>)
    ensures Split(chain, ',') == Filters(o)
    ensures paletteArgs ==
              ["-i", o.inputPath, "-vf", chain + "," + PaletteGen(OrDefault(o.colors, DefaultColors)), "-y", paletteFile]
    ensures Split(paletteArgs[3], ',') == Filters(o) + [PaletteGen(OrDefault(o.colors, DefaultColors))]
    ensures gifArgs ==
              ["-i", o.inputPath, "-i", paletteFile,
               "-filter_complex",
               "[0:v]" + chain + "[v];[v][1:v]paletteuse=dither=" + (if o.dither == "" then DefaultDither else o.dither),
               "-y", o.outputPath]
  {
    var filters := BuildFilters(o);
    FiltersHaveNoComma(o);
    ChainReadsBack(filters, OrDefault(o.colors, DefaultColors));
    chain := Join(filters, ',');
    var paletteGen := PaletteGen(OrDefault(o.colors, DefaultColors));
    paletteArgs := ["-i", o.inputPath, "-vf", chain + "," + paletteGen, "-y", paletteFile];
    var dither := if o.dither == "" then DefaultDither else o.dither;
    gifArgs := ["-i", o.inputPath, "-i", paletteFile,
                "-filter_complex", "[0:v]" + chain + "[v];[v][1:v]paletteuse=dither=" + dither,
                "-y", o.outputPath];
  }
}
