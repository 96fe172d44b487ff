/** parse_args of src/args.c: help, the three positional arguments, the defaults, then the
    options in order, each matched by prefix. ArgsOutcome is what parse_args decides;
    ParseArgs is the loop that decides it, field by field. */
module ArgParser {
  import opened Wrappers
  import opened CString
  import opened CommandLine

  /** Arguments as the program receives them: C strings. */
  predicate CArgs(argv: seq<string>) {
    forall k :: 0 <= k < |argv| ==> NoNul(argv[k])
  }

  // ---------------------------------------------------------------------------------------
  // Option names and values

  /** The option text before its first '=' (all of it when there is none). */
  function OptionName(arg: string): (name: string)
    ensures name <= arg && '=' !in name
    ensures |name| < |arg| ==> arg[|name|] == '='
  {
    arg[..IndexOf(arg, '=', 0)]
  }

  /** get_option_value: the text after the first '='; without one, the error that quotes the
      whole argument. */
  function OptionValue(arg: string): (r: Result<string, ArgError>)
    ensures r.Ok? <==> '=' in arg
    ensures r.Ok? ==> arg == OptionName(arg) + "=" + r.value
    ensures r.Err? ==> r.error == MissingValue(arg)
  {
    var k := IndexOf(arg, '=', 0);
    if k == |arg| then Err(MissingValue(arg))
    else
      assert arg == arg[..k] + "=" + arg[k + 1..];
      Ok(arg[k + 1..])
  }

  /** The C string a buffer holds: everything before its first NUL. */
  function CStr(buf: seq<char>): string {
    buf[..IndexOf(buf, '\0', 0)]
  }

  lemma CStrOfTerminated(s: string)
    requires NoNul(s)
    ensures CStr(s + ['\0']) == s
  {
    assert forall m :: 0 <= m < |s| ==> (s + ['\0'])[m] == s[m];
    assert (s + ['\0'])[|s|] == '\0';
    assert IndexOf(s + ['\0'], '\0', 0) == |s|;
    assert (s + ['\0'])[..|s|] == s;
  }

  /** The loop of the unknown-option branch: the first '=' before the terminating NUL is
      overwritten with a NUL, so that the C string left in the buffer is the option's name. */
  method CutAtEquals(arg: array<char>)
    requires arg.Length >= 1 && arg[arg.Length - 1] == '\0'
    modifies arg
    ensures IndexOf(old(arg[..]), '=', 0) < IndexOf(old(arg[..]), '\0', 0) ==>
              arg[..] == old(arg[..])[IndexOf(old(arg[..]), '=', 0) := '\0']
    ensures IndexOf(old(arg[..]), '=', 0) >= IndexOf(old(arg[..]), '\0', 0) ==> arg[..] == old(arg[..])
    ensures CStr(arg[..]) == OptionName(CStr(old(arg[..])))
  {
    ghost var s := arg[..];
    ghost var z := IndexOf(s, '\0', 0);
    var i := 0;
    while arg[i] != '\0'
      invariant 0 <= i <= z < arg.Length
      invariant arg[..] == s
      invariant forall m :: 0 <= m < i ==> s[m] != '='
      decreases z - i
    {
      if arg[i] == '=' {
        arg[i] := '\0';
        CutAt(s, i, z);
        return;
      }
      i := i + 1;
    }
    assert i == z;
    NoCut(s, z);
  }

  /** The cut at the first '=', at index k, before the first NUL, at z. */
  lemma CutAt(s: seq<char>, k: nat, z: nat)
    requires z == IndexOf(s, '\0', 0) && k < z && s[k] == '='
    requires forall m :: 0 <= m < k ==> s[m] != '='
    ensures IndexOf(s, '=', 0) == k
    ensures CStr(s[k := '\0']) == OptionName(CStr(s))
  {
    var t := s[k := '\0'];
    assert forall m :: 0 <= m < k ==> t[m] == s[m] != '\0';
    assert t[k] == '\0';
    assert IndexOf(t, '\0', 0) == k;
    var c := CStr(s);
    assert c == s[..z];
    assert forall m :: 0 <= m < k ==> c[m] == s[m];
    assert c[k] == '=';
    assert IndexOf(c, '=', 0) == k;
    assert t[..k] == s[..k] == c[..k];
  }

  /** No '=' before the first NUL: the buffer keeps its C string, which is its own name. */
  lemma NoCut(s: seq<char>, z: nat)
    requires z == IndexOf(s, '\0', 0) && z < |s|
    requires forall m :: 0 <= m < z ==> s[m] != '='
    ensures IndexOf(s, '=', 0) >= z
    ensures CStr(s) == OptionName(CStr(s))
  {
    var c := CStr(s);
    assert forall m :: 0 <= m < |c| ==> c[m] == s[m];
    assert c[..|c|] == c;
  }

  // ---------------------------------------------------------------------------------------
  // Defaults and options

  /** ceilf(ppem / 14.0f), taken exactly: the least integer that is at least ppem / 14. The
      float conversion and division round only from ppem = 2^24 on. */
  function DefaultSpread(ppem: int): (spread: int)
    requires ppem > 0
    ensures 14 * (spread - 1) < ppem <= 14 * spread
  {
    (ppem + 13) / 14
  }

  /** Lines 105-110: the arguments before any option is applied. */
  function Defaults(ttfPath: string, ppem: int, w: int, h: int): Args
    requires ppem > 0
  {
    Args(ttfPath, None, None, [0, 0, 0, 0], ppem, w, h, DefaultSpread(ppem), 5)
  }

  /** A value parse_int can return (other than -1), positive when `nonzero`. */
  predicate IntValue(x: int, nonzero: bool) {
    0 <= x <= INT_MAX && (nonzero ==> x > 0)
  }

  /** What every successful parse guarantees of the arguments it returns. */
  predicate Valid(a: Args) {
    && IntValue(a.ppem, true) && IntValue(a.outImageW, true) && IntValue(a.outImageH, true)
    && IntValue(a.spread, false) && IntValue(a.scale, true)
    && |a.padding| == 4 && forall k :: 0 <= k < 4 ==> IntValue(a.padding[k], false)
  }

  /** The values of a list parse_comma_separated_ints accepts are values parse_int could return. */
  lemma CommaValuesBounds(s: string, n: nat, nonzero: bool)
    requires CommaInts(s, n, nonzero)
    ensures |CommaValues(s)| == n
    ensures forall k :: 0 <= k < n ==> IntValue(CommaValues(s)[k], nonzero)
  {
    forall k | 0 <= k < n ensures IntValue(CommaValues(s)[k], nonzero) {
      assert PieceOk(Split(s)[k], nonzero);
    }
  }

  /** The option kinds, in the order of the dispatch at lines 115-157. */
  datatype OptionKind = HelpOption | SpreadOption | ScaleOption | PaddingOption | OutImageOption | OutFontOption | UnknownKind

  /** First-match dispatch on the option's prefix. */
  function Classify(arg: string): OptionKind {
    if StrStartsWith(arg, "--help") || StrStartsWith(arg, "--help=") then HelpOption
    else if StrStartsWith(arg, "--spread") then SpreadOption
    else if StrStartsWith(arg, "--scale") then ScaleOption
    else if StrStartsWith(arg, "--padding") then PaddingOption
    else if StrStartsWith(arg, "--out-image") then OutImageOption
    else if StrStartsWith(arg, "--out-font") then OutFontOption
    else UnknownKind
  }

  /** An option with a value applied to the arguments so far: only the numeric options can
      fail, and an option changes no field but its own. */
  function ApplyValue(a: Args, kind: OptionKind, v: string): (r: Result<Args, ArgError>)
    ensures r.Err? ==> kind == SpreadOption || kind == ScaleOption || kind == PaddingOption
    ensures r.Ok? ==> && r.value.ttfPath == a.ttfPath && r.value.ppem == a.ppem
                      && r.value.outImageW == a.outImageW && r.value.outImageH == a.outImageH
                      && (kind != SpreadOption ==> r.value.spread == a.spread)
                      && (kind != ScaleOption ==> r.value.scale == a.scale)
                      && (kind != PaddingOption ==> r.value.padding == a.padding)
                      && (kind != OutImageOption ==> r.value.outImagePath == a.outImagePath)
                      && (kind != OutFontOption ==> r.value.outFontPath == a.outFontPath)
  {
    match kind
    case SpreadOption =>
      if ParseInt(v, false) < 0 then Err(InvalidSpread(v)) else Ok(a.(spread := ParseInt(v, false)))
    case ScaleOption =>
      if ParseInt(v, true) < 0 then Err(InvalidScale(v)) else Ok(a.(scale := ParseInt(v, true)))
    case PaddingOption =>
      if !CommaInts(v, 4, false) then Err(InvalidPadding(v)) else Ok(a.(padding := CommaValues(v)))
    case OutImageOption => Ok(a.(outImagePath := Some(v)))
    case OutFontOption => Ok(a.(outFontPath := Some(v)))
    case _ => Ok(a)
  }

  /** One iteration of the option loop (lines 112-157): an option applies only when it is
      recognised, is not `--help`, and has a value. */
  function ApplyOption(a: Args, arg: string): (r: Result<Args, ArgError>)
    ensures r.Ok? ==> Classify(arg) != UnknownKind && Classify(arg) != HelpOption && '=' in arg
  {
    match Classify(arg)
    case HelpOption => Err(HelpNotValidHere)
    case UnknownKind => Err(UnknownOption(OptionName(arg)))
    case kind =>
      match OptionValue(arg)
      case Err(e) => Err(e)
      case Ok(v) => ApplyValue(a, kind, v)
  }

  /** The options applied in order; the first failing one decides the error. */
  function ApplyAll(a: Args, opts: seq<string>): (r: Result<Args, ArgError>)
    ensures r.Ok? ==> forall k :: 0 <= k < |opts| ==>
              Classify(opts[k]) != UnknownKind && Classify(opts[k]) != HelpOption && '=' in opts[k]
    decreases |opts|
  {
    if opts == [] then Ok(a)
    else match ApplyOption(a, opts[0])
      case Err(e) => Err(e)
      case Ok(b) => ApplyAll(b, opts[1..])
  }

  /** What parse_args decides for argv. For C strings, strcmp(argv[1], "--help") == 0 is
      equality. */
  function ArgsOutcome(argv: seq<string>): (r: Outcome)
    ensures r.Parsed? ==> Valid(r.args) && |argv| >= 4
    ensures r.Parsed? ==> && r.args.ttfPath == argv[1]
                          && r.args.ppem == ParseInt(argv[2], true)
                          && [r.args.outImageW, r.args.outImageH] == CommaValues(argv[3])
  {
    if |argv| == 1 || (|argv| == 2 && argv[1] == "--help") then Help
    else if |argv| < 4 then Failed(InvalidArguments)
    else if ParseInt(argv[2], true) < 0 then Failed(InvalidGlyphSize(argv[2]))
    else if !CommaInts(argv[3], 2, true) then Failed(InvalidImageSize(argv[3]))
    else
      var ppem := ParseInt(argv[2], true);
      var size := CommaValues(argv[3]);
      CommaValuesBounds(argv[3], 2, true);
      var a0 := Defaults(argv[1], ppem, size[0], size[1]);
      match ApplyAll(a0, argv[4..])
      case Err(e) => Failed(e)
      case Ok(a) =>
        ApplyAllKeeps(a0, argv[4..]);
        assert [a.outImageW, a.outImageH] == size;
        Parsed(a)
  }

  // ---------------------------------------------------------------------------------------
  // Properties of the option loop

  /** An option changes at most the field it names, and keeps the arguments valid. */
  lemma ApplyOptionKeeps(a: Args, arg: string)
    requires Valid(a)
    ensures ApplyOption(a, arg).Ok? ==> Valid(ApplyOption(a, arg).value)
    ensures ApplyOption(a, arg).Ok? ==>
              && ApplyOption(a, arg).value.ttfPath == a.ttfPath
              && ApplyOption(a, arg).value.ppem == a.ppem
              && ApplyOption(a, arg).value.outImageW == a.outImageW
              && ApplyOption(a, arg).value.outImageH == a.outImageH
  {
    if ApplyOption(a, arg).Ok? && Classify(arg) == PaddingOption {
      CommaValuesBounds(OptionValue(arg).value, 4, false);
    }
  }

  lemma {:induction false} ApplyAllKeeps(a: Args, opts: seq<string>)
    requires Valid(a)
    ensures ApplyAll(a, opts).Ok? ==> Valid(ApplyAll(a, opts).value)
    ensures ApplyAll(a, opts).Ok? ==>
              && ApplyAll(a, opts).value.ttfPath == a.ttfPath
              && ApplyAll(a, opts).value.ppem == a.ppem
              && ApplyAll(a, opts).value.outImageW == a.outImageW
              && ApplyAll(a, opts).value.outImageH == a.outImageH
    decreases |opts|
  {
    if opts != [] {
      ApplyOptionKeeps(a, opts[0]);
      if ApplyOption(a, opts[0]).Ok? {
        ApplyAllKeeps(ApplyOption(a, opts[0]).value, opts[1..]);
      }
    }
  }

  /** Applying xs then ys is applying xs + ys; an error in xs stops everything after it. */
  lemma {:induction false} ApplyAllAppend(a: Args, xs: seq<string>, ys: seq<string>)
    ensures ApplyAll(a, xs + ys) == match ApplyAll(a, xs) { case Err(e) => Err(e) case Ok(b) => ApplyAll(b, ys) }
    decreases |xs|
  {
    if xs == [] {
      assert xs + ys == ys;
    } else {
      assert (xs + ys)[0] == xs[0];
      assert (xs + ys)[1..] == xs[1..] + ys;
      if ApplyOption(a, xs[0]).Ok? {
        ApplyAllAppend(ApplyOption(a, xs[0]).value, xs[1..], ys);
      }
    }
  }

  /** An option ending after the last applied one counts last: the options are applied in
      the order given and each later one overrides what it sets. */
  lemma LaterOption(argv: seq<string>, arg: string)
    requires ArgsOutcome(argv).Parsed?
    ensures ArgsOutcome(argv + [arg]) == match ApplyOption(ArgsOutcome(argv).args, arg)
                                         { case Err(e) => Failed(e) case Ok(b) => Parsed(b) }
  {
    var argv' := argv + [arg];
    assert argv'[1] == argv[1] && argv'[2] == argv[2] && argv'[3] == argv[3];
    assert argv'[4..] == argv[4..] + [arg];
    var ppem := ParseInt(argv[2], true);
    var size := CommaValues(argv[3]);
    var a0 := Defaults(argv[1], ppem, size[0], size[1]);
    ApplyAllAppend(a0, argv[4..], [arg]);
    var b := ArgsOutcome(argv).args;
    assert ApplyAll(a0, argv[4..]) == Ok(b);
    assert [arg][1..] == [];
  }

  /** The first error is final: whatever follows a failing argument list, it fails the same way. */
  lemma FailureIsFinal(argv: seq<string>, more: seq<string>)
    requires |argv| >= 4 && ArgsOutcome(argv).Failed?
    ensures ArgsOutcome(argv + more) == ArgsOutcome(argv)
  {
    var argv' := argv + more;
    assert argv'[1] == argv[1] && argv'[2] == argv[2] && argv'[3] == argv[3];
    if ParseInt(argv[2], true) >= 0 && CommaInts(argv[3], 2, true) {
      assert argv'[4..] == argv[4..] + more;
      var size := CommaValues(argv[3]);
      ApplyAllAppend(Defaults(argv[1], ParseInt(argv[2], true), size[0], size[1]), argv[4..], more);
    }
  }

  /** Without options the defaults stand: no output paths, no padding, scale 5 and a spread
      of ppem / 14 rounded up. */
  lemma NoOptions(argv: seq<string>)
    requires |argv| == 4 && ParseInt(argv[2], true) >= 0 && CommaInts(argv[3], 2, true)
    ensures ArgsOutcome(argv) == Parsed(Defaults(argv[1], ParseInt(argv[2], true),
                                                 CommaValues(argv[3])[0], CommaValues(argv[3])[1]))
  {
    assert argv[4..] == [];
  }

  /** The help text is printed for the program name alone or followed by exactly `--help`. */
  lemma HelpCases(argv: seq<string>)
    requires |argv| >= 1
    ensures ArgsOutcome(argv).Help? <==> |argv| == 1 || (|argv| == 2 && argv[1] == "--help")
    ensures 2 <= |argv| < 4 && !ArgsOutcome(argv).Help? ==> ArgsOutcome(argv) == Failed(InvalidArguments)
  {
  }

  /** `--help` among the options is an error, and testing for "--help=" as well adds nothing. */
  lemma HelpOptionFails(a: Args, arg: string)
    requires NoNul(arg)
    ensures StrStartsWith(arg, "--help=") ==> StrStartsWith(arg, "--help")
    ensures ApplyOption(a, arg) == Err(HelpNotValidHere) <==> "--help" <= arg
  {
    StartsWithIsPrefix(arg, "--help");
    StartsWithIsPrefix(arg, "--help=");
    if "--help=" <= arg {
      assert arg[..6] == "--help=" [..6] == "--help";
    }
    if ApplyOption(a, arg) == Err(HelpNotValidHere) {
      assert Classify(arg) == HelpOption;
    }
  }

  /** get_option_value of `name=value` with no '=' in the name is the value. */
  lemma NameValue(name: string, v: string)
    requires '=' !in name
    ensures OptionName(name + "=" + v) == name
    ensures OptionValue(name + "=" + v) == Ok(v)
  {
    var arg := name + "=" + v;
    assert forall m :: 0 <= m < |name| ==> arg[m] == name[m];
    assert arg[|name|] == '=';
    assert IndexOf(arg, '=', 0) == |name|;
    assert arg[..|name|] == name;
    assert arg[|name| + 1..] == v;
  }

  /** The text every option of a kind starts with. */
  function Prefix(kind: OptionKind): string {
    match kind
    case HelpOption => "--help"
    case SpreadOption => "--spread"
    case ScaleOption => "--scale"
    case PaddingOption => "--padding"
    case OutImageOption => "--out-image"
    case OutFontOption => "--out-font"
    case UnknownKind => ""
  }

  /** Options are matched by prefix alone: whatever follows the option's name is ignored
      (`--spreadsheet=3` sets the spread), and the dispatch never confuses two options. */
  lemma ClassifyPrefixed(kind: OptionKind, rest: string)
    requires kind != UnknownKind && NoNul(rest)
    ensures Classify(Prefix(kind) + rest) == kind
  {
    var arg := Prefix(kind) + rest;
    assert forall m :: 0 <= m < |Prefix(kind)| ==> arg[m] == Prefix(kind)[m];
    assert arg[..|Prefix(kind)|] == Prefix(kind);
    StartsWithIsPrefix(arg, Prefix(kind));
    match kind {
      case HelpOption =>
      case SpreadOption =>
        SkipsHelp(arg);
      case ScaleOption =>
        SkipsHelp(arg);
        NotPrefix(arg, "--spread", 3);
      case PaddingOption =>
        SkipsHelp(arg);
        SkipsS(arg);
      case OutImageOption =>
        SkipsHelp(arg);
        SkipsS(arg);
        NotPrefix(arg, "--padding", 2);
      case OutFontOption =>
        SkipsHelp(arg);
        SkipsS(arg);
        NotPrefix(arg, "--padding", 2);
        NotPrefix(arg, "--out-image", 6);
    }
  }

  /** A string that differs from a prefix at position k, or ends before it, does not start with it. */
  lemma NotPrefix(arg: string, prefix: string, k: nat)
    requires NoNul(arg) && NoNul(prefix) && k < |prefix| && (k >= |arg| || arg[k] != prefix[k])
    ensures !StrStartsWith(arg, prefix)
  {
    StartsWithIsPrefix(arg, prefix);
  }

  lemma SkipsHelp(arg: string)
    requires NoNul(arg) && (|arg| <= 2 || arg[2] != 'h')
    ensures !StrStartsWith(arg, "--help") && !StrStartsWith(arg, "--help=")
  {
    NotPrefix(arg, "--help", 2);
    NotPrefix(arg, "--help=", 2);
  }

  lemma SkipsS(arg: string)
    requires NoNul(arg) && (|arg| <= 2 || arg[2] != 's')
    ensures !StrStartsWith(arg, "--spread") && !StrStartsWith(arg, "--scale")
  {
    NotPrefix(arg, "--spread", 2);
    NotPrefix(arg, "--scale", 2);
  }

  /** An option with a value: `<option name><anything without '='>=<value>` applies the value. */
  lemma OptionWithValue(a: Args, kind: OptionKind, suffix: string, v: string)
    requires kind != UnknownKind && kind != HelpOption
    requires NoNul(suffix) && NoNul(v) && '=' !in suffix
    ensures ApplyOption(a, Prefix(kind) + suffix + "=" + v) == ApplyValue(a, kind, v)
  {
    var name := Prefix(kind) + suffix;
    assert Prefix(kind) + (suffix + "=" + v) == name + "=" + v;
    assert NoNul(suffix + "=" + v);
    ClassifyPrefixed(kind, suffix + "=" + v);
    assert '=' !in Prefix(kind);
    assert '=' !in name;
    NameValue(name, v);
  }

  /** An option given without '=' stops the program naming the whole argument. */
  lemma OptionWithoutValue(a: Args, kind: OptionKind, suffix: string)
    requires kind != UnknownKind && kind != HelpOption
    requires NoNul(suffix) && '=' !in suffix
    ensures ApplyOption(a, Prefix(kind) + suffix) == Err(MissingValue(Prefix(kind) + suffix))
  {
    ClassifyPrefixed(kind, suffix);
    assert '=' !in Prefix(kind);
    assert '=' !in Prefix(kind) + suffix;
  }

  /** "0" reads as 0, which only a value that may be zero accepts. */
  lemma ParseIntZero(nonzero: bool)
    ensures ParseInt("0", nonzero) == if nonzero then -1 else 0
  {
    assert IntToDecimal(0) == "0";
    StrtolOfDecimal(0, []);
    assert "0" + [] == "0";
  }

  /** A spread of 0 is accepted. */
  lemma ZeroSpread(a: Args)
    ensures ApplyOption(a, "--spread=0") == Ok(a.(spread := 0))
  {
    ParseIntZero(false);
    OptionWithValue(a, SpreadOption, "", "0");
    assert Prefix(SpreadOption) + "" + "=" + "0" == "--spread=0";
  }

  /** A scale of 0 is not. */
  lemma ZeroScale(a: Args)
    ensures ApplyOption(a, "--scale=0") == Err(InvalidScale("0"))
  {
    ParseIntZero(true);
    OptionWithValue(a, ScaleOption, "", "0");
    assert Prefix(ScaleOption) + "" + "=" + "0" == "--scale=0";
  }

  /** The dispatch finds an option unknown exactly when it starts with none of the option
      names, and an unknown option fails naming its text before the first '='. */
  lemma UnknownOptionFails(a: Args, arg: string)
    requires NoNul(arg)
    ensures Classify(arg) == UnknownKind <==> forall k :: k != UnknownKind ==> !(Prefix(k) <= arg)
    ensures Classify(arg) == UnknownKind ==> ApplyOption(a, arg) == Err(UnknownOption(OptionName(arg)))
  {
    StartsWithIsPrefix(arg, "--help");
    StartsWithIsPrefix(arg, "--help=");
    StartsWithIsPrefix(arg, "--spread");
    StartsWithIsPrefix(arg, "--scale");
    StartsWithIsPrefix(arg, "--padding");
    StartsWithIsPrefix(arg, "--out-image");
    StartsWithIsPrefix(arg, "--out-font");
    if "--help=" <= arg {
      assert arg[..6] == "--help";
    }
    if Classify(arg) == UnknownKind {
      forall k | k != UnknownKind ensures !(Prefix(k) <= arg) {
      }
    } else {
      var k := Classify(arg);
      if k == HelpOption {
        assert Prefix(HelpOption) <= arg;
      } else {
        assert Prefix(k) <= arg;
      }
    }
  }

  /** Two unknown options, and the names their errors quote. */
  lemma UnknownOptions(a: Args)
    ensures ApplyOption(a, "-o=x") == Err(UnknownOption("-o"))
    ensures ApplyOption(a, "--out=x") == Err(UnknownOption("--out"))
  {
    NameValue("-o", "x");
    NameValue("--out", "x");
    assert "-o=x" == "-o" + "=" + "x";
    assert "--out=x" == "--out" + "=" + "x";
    SkipsHelp("-o=x");
    SkipsS("-o=x");
    NotPrefix("-o=x", "--padding", 2);
    NotPrefix("-o=x", "--out-image", 6);
    NotPrefix("-o=x", "--out-font", 6);
    SkipsHelp("--out=x");
    SkipsS("--out=x");
    NotPrefix("--out=x", "--padding", 2);
    NotPrefix("--out=x", "--out-image", 6);
    NotPrefix("--out=x", "--out-font", 6);
  }

  // ---------------------------------------------------------------------------------------
  // parse_args

  /** One step of the option loop when the option applies. */
  lemma StepOk(a: Args, rest: seq<string>, b: Args)
    requires rest != [] && ApplyOption(a, rest[0]) == Ok(b)
    ensures ApplyAll(a, rest) == ApplyAll(b, rest[1..])
  {
  }

  /** Lines 136-140: the value of `--padding` read into the padding array in place. */
  method ReadPadding(a: Args, v: string, padding: array<int>) returns (r: Result<Args, ArgError>)
    requires NoNul(v) && padding.Length == 4
    modifies padding
    ensures r == ApplyValue(a, PaddingOption, v)
    ensures r.Ok? ==> r.value.padding == padding[..]
  {
    var ok := ParseCommaSeparatedInts(v, padding, 4, false);
    if !ok {
      return Err(InvalidPadding(v));
    }
    assert padding[..] == padding[..4];
    return Ok(a.(padding := padding[..]));
  }

  /** Lines 148-155: the option, as a NUL-terminated buffer, cut at its first '='; the C
      string left is the option's name. The source cuts argv's own string, and exits right
      after; the buffer here is a copy of it. */
  method UnknownName(arg: string) returns (name: string)
    requires NoNul(arg)
    ensures name == OptionName(arg)
  {
    var terminated := arg + ['\0'];
    var buf := new char[|terminated|](k requires 0 <= k < |terminated| => terminated[k]);
    assert buf[..] == terminated;
    CStrOfTerminated(arg);
    CutAtEquals(buf);
    name := CStr(buf[..]);
  }

  /** One iteration of the option loop at lines 112-157: `--padding` is read into the padding
      array in place, and an unknown option is cut at its '='. */
  method ParseOption(a: Args, arg: string, padding: array<int>) returns (r: Result<Args, ArgError>)
    requires NoNul(arg) && padding.Length == 4 && a.padding == padding[..]
    modifies padding
    ensures r == ApplyOption(a, arg)
    ensures r.Ok? ==> r.value.padding == padding[..]
  {
    if StrStartsWith(arg, "--help") || StrStartsWith(arg, "--help=") {
      return Err(HelpNotValidHere);
    }
    if StrStartsWith(arg, "--spread") {
      var value := OptionValue(arg);
      if value.Err? {
        return Err(value.error);
      }
      var spread := ParseInt(value.value, false);
      if spread < 0 {
        return Err(InvalidSpread(value.value));
      }
      return Ok(a.(spread := spread));
    } else if StrStartsWith(arg, "--scale") {
      var value := OptionValue(arg);
      if value.Err? {
        return Err(value.error);
      }
      var scale := ParseInt(value.value, true);
      if scale < 0 {
        return Err(InvalidScale(value.value));
      }
      return Ok(a.(scale := scale));
    } else if StrStartsWith(arg, "--padding") {
      var value := OptionValue(arg);
      if value.Err? {
        return Err(value.error);
      }
      r := ReadPadding(a, value.value, padding);
    } else if StrStartsWith(arg, "--out-image") {
      var value := OptionValue(arg);
      if value.Err? {
        return Err(value.error);
      }
      return Ok(a.(outImagePath := Some(value.value)));
    } else if StrStartsWith(arg, "--out-font") {
      var value := OptionValue(arg);
      if value.Err? {
        return Err(value.error);
      }
      return Ok(a.(outFontPath := Some(value.value)));
    } else {
      var name := UnknownName(arg);
      return Err(UnknownOption(name));
    }
  }

  /** parse_args: the checks in the source's order, the defaults, then the option loop, which
      updates the arguments one option at a time. exit(1) becomes a Failed outcome, the help
      branch the Help outcome. */
  method ParseArgs(argv: seq<string>) returns (r: Outcome)
    requires CArgs(argv)
    ensures r == ArgsOutcome(argv)
  {
    if |argv| == 1 || (|argv| == 2 && argv[1] == "--help") {
      return Help;
    }
    if |argv| < 4 {
      return Failed(InvalidArguments);
    }
    var ppem := ParseInt(argv[2], true);
    if ppem < 0 {
      return Failed(InvalidGlyphSize(argv[2]));
    }
    var size := new int[2];
    var sizeOk := ParseCommaSeparatedInts(argv[3], size, 2, true);
    if !sizeOk {
      return Failed(InvalidImageSize(argv[3]));
    }
    assert size[..] == size[..2];
    var padding := new int[4](_ => 0);
    var a := Args(argv[1], None, None, padding[..], ppem, size[0], size[1], DefaultSpread(ppem), 5);
    assert padding[..] == [0, 0, 0, 0];
    ghost var rest := argv[4..];
    ghost var whole := ApplyAll(a, rest);
    assert ArgsOutcome(argv) == match whole { case Err(e) => Failed(e) case Ok(b) => Parsed(b) };
    for i := 4 to |argv|
      invariant rest == argv[i..]
      invariant whole == ApplyAll(a, rest)
      invariant a.padding == padding[..]
    {
      assert rest != [] && argv[i] == rest[0];
      var step := ParseOption(a, argv[i], padding);
      if step.Err? {
        return Failed(step.error);
      }
      StepOk(a, rest, step.value);
      a := step.value;
      rest := rest[1..];
    }
    return Parsed(a);
  }
}
