/** The command-line parser of src/args.c. `exit` becomes an Outcome: `Help` is the help
    text and exit status 0, `Failed` the error message and exit status 1. argv[0] is the
    program name, so argc is |argv|. */
module CommandLine {
  import opened Wrappers
  import opened CString

  /** src/args.h. A `None` path is a NULL pointer: the generator then uses its default path. */
  datatype Args = Args(
    ttfPath: string,
    outImagePath: Option<string>,
    outFontPath: Option<string>,
    padding: seq<int>,  // left, right, top, bottom
    ppem: int,
    outImageW: int,
    outImageH: int,
    spread: int,
    scale: int)

  /** The error messages of parse_args and get_option_value, with the text each one quotes. */
  datatype ArgError =
    | InvalidArguments
    | InvalidGlyphSize(glyphSize: string)
    | InvalidImageSize(imageSize: string)
    | HelpNotValidHere
    | MissingValue(option: string)
    | InvalidSpread(spreadValue: string)
    | InvalidScale(scaleValue: string)
    | InvalidPadding(paddingValue: string)
    | UnknownOption(name: string)

  datatype Outcome = Help | Parsed(args: Args) | Failed(error: ArgError)

  // ---------------------------------------------------------------------------------------
  // Prefix test

  /** strncmp over positions i..n-1: the difference of the first differing characters, or 0
      once n characters matched or a NUL common to both was reached. */
  function StrncmpFrom(a: string, b: string, i: nat, n: nat): int
    decreases n - i
  {
    if i >= n then 0
    else if CharAt(a, i) != CharAt(b, i) then (CharAt(a, i) as int) - (CharAt(b, i) as int)
    else if CharAt(a, i) == '\0' then 0
    else StrncmpFrom(a, b, i + 1, n)
  }

  /** str_starts_with: strncmp(str, prefix, strlen(prefix)) == 0. */
  predicate StrStartsWith(str: string, prefix: string) {
    StrncmpFrom(str, prefix, 0, |prefix|) == 0
  }

  lemma {:induction false} StrncmpFromZero(a: string, b: string, i: nat)
    requires NoNul(a) && NoNul(b) && i <= |a| && i <= |b|
    ensures StrncmpFrom(a, b, i, |b|) == 0 <==> |b| <= |a| && forall k :: i <= k < |b| ==> a[k] == b[k]
    decreases |b| - i
  {
    if i < |b| {
      assert CharAt(b, i) == b[i] != '\0';
      if i < |a| && a[i] == b[i] {
        StrncmpFromZero(a, b, i + 1);
      }
    }
  }

  /** For C strings, str_starts_with holds exactly when `prefix` is a prefix of `str`. */
  lemma StartsWithIsPrefix(str: string, prefix: string)
    requires NoNul(str) && NoNul(prefix)
    ensures StrStartsWith(str, prefix) <==> prefix <= str
  {
    StrncmpFromZero(str, prefix, 0);
    if |prefix| <= |str| && forall k :: 0 <= k < |prefix| ==> str[k] == prefix[k] {
      assert str[..|prefix|] == prefix;
    }
  }

  // ---------------------------------------------------------------------------------------
  // Integers

  /** strtol_is_valid. `errnoSet` is errno after the strtol call being checked: errno is 0 when
      the program starts, only strtol sets it here, and an ERANGE always makes the value
      invalid (see OverflowIsInvalid), after which the program exits. So errno is set exactly
      when that very call overflowed. */
  predicate StrtolIsValid(value: int, errnoSet: bool, nonzero: bool) {
    !(value < 0 || (errnoSet && value == 0) || (nonzero && value == 0))
  }

  /** A strtol overflow never yields a valid value: (int)LONG_MAX is -1 and (int)LONG_MIN is 0
      with errno set. */
  lemma OverflowIsInvalid(s: string, i: nat, nonzero: bool)
    requires i <= |s| && Strtol(s, i).overflow
    ensures !StrtolIsValid(ToInt32(Strtol(s, i).value), true, nonzero)
  {
    assert ToInt32(LONG_MAX) == -1;
    assert ToInt32(LONG_MIN) == 0;
  }

  /** parse_int: the value when strtol reads the whole string and the value is acceptable, else -1. */
  function ParseInt(input: string, nonzero: bool): (r: int)
    ensures r == -1 || (0 <= r <= INT_MAX && (r > 0 || !nonzero))
  {
    var t := Strtol(input, 0);
    var value := ToInt32(t.value);
    if StrtolIsValid(value, t.overflow, nonzero) && CharAt(input, t.end) == '\0' then value else -1
  }

  /** What printf's %d writes is read back by parse_int. */
  lemma {:induction false} ParseIntOfDecimal(n: int, nonzero: bool)
    requires 0 <= n <= INT_MAX && (n > 0 || !nonzero)
    ensures ParseInt(IntToDecimal(n), nonzero) == n
  {
    StrtolOfDecimal(n, []);
    assert IntToDecimal(n) + [] == IntToDecimal(n);
  }

  /** Text after the number makes parse_int fail. */
  lemma {:induction false} ParseIntRejectsTrailing(n: int, rest: string, nonzero: bool)
    requires INT_MIN <= n <= INT_MAX && rest != [] && !IsDigit(rest[0]) && NoNul(rest)
    ensures ParseInt(IntToDecimal(n) + rest, nonzero) == -1
  {
    StrtolOfDecimal(n, rest);
  }

  /** A negative number within the range of `int` is refused. */
  lemma {:induction false} ParseIntRejectsNegative(n: int, nonzero: bool)
    requires INT_MIN <= n < 0
    ensures ParseInt(IntToDecimal(n), nonzero) == -1
  {
    StrtolOfDecimal(n, []);
    assert IntToDecimal(n) + [] == IntToDecimal(n);
  }

  /** The empty string has no digits, so strtol leaves `*endptr` on its NUL: parse_int reads it
      as 0, which `--spread=` accepts. */
  lemma ParseIntEmpty(nonzero: bool)
    ensures ParseInt("", nonzero) == if nonzero then -1 else 0
  {
    assert SpaceEnd("", 0) == 0;
    assert DigitEnd("", 0) == 0;
  }

  /** `(int)` keeps only the low 32 bits of a number strtol reads without overflow: a
      decimal above INT_MAX is accepted when its wrapped value is non-negative. */
  lemma {:induction false} ParseIntWraps(n: int)
    requires INT_MAX < n <= LONG_MAX
    ensures ParseInt(IntToDecimal(n), false) == if ToInt32(n) >= 0 then ToInt32(n) else -1
  {
    StrtolOfDecimal(n, []);
    assert IntToDecimal(n) + [] == IntToDecimal(n);
  }

  /** Below INT_MIN the cast wraps as well, so a negative decimal can be accepted: it is, when
      its low 32 bits make an acceptable value ("-4294967295" reads as 1). */
  lemma {:induction false} ParseIntWrapsNegative(n: int, nonzero: bool)
    requires LONG_MIN <= n < INT_MIN
    ensures ParseInt(IntToDecimal(n), nonzero)
            == if ToInt32(n) >= 0 && (ToInt32(n) > 0 || !nonzero) then ToInt32(n) else -1
  {
    StrtolOfDecimal(n, []);
    assert IntToDecimal(n) + [] == IntToDecimal(n);
  }

  /** The wrap makes a negative number acceptable even where zero is not. */
  lemma NegativeAccepted()
    ensures ParseInt(IntToDecimal(-4294967295), true) == 1
  {
    ParseIntWrapsNegative(-4294967295, true);
  }

  // ---------------------------------------------------------------------------------------
  // Comma-separated lists

  /** Index of the first occurrence of c at or after i, or |s| when there is none. */
  function IndexOf(s: string, c: char, i: nat): (k: nat)
    requires i <= |s|
    ensures i <= k <= |s| && (k < |s| ==> s[k] == c)
    ensures forall m :: i <= m < k ==> s[m] != c
    decreases |s| - i
  {
    if i == |s| || s[i] == c then i else IndexOf(s, c, i + 1)
  }

  /** Where the piece after the one starting at i begins: just past the next comma. */
  function NextPiece(s: string, i: nat): (j: nat)
    requires i <= |s| && IndexOf(s, ',', i) < |s|
    ensures i < j <= |s|
  {
    IndexOf(s, ',', i) + 1
  }

  /** The comma-separated pieces of s[i..], in order. */
  function SplitFrom(s: string, i: nat): (pieces: seq<string>)
    requires i <= |s|
    ensures |pieces| >= 1
    decreases |s| - i
  {
    if IndexOf(s, ',', i) == |s| then [s[i..]]
    else [s[i..IndexOf(s, ',', i)]] + SplitFrom(s, NextPiece(s, i))
  }

  function Split(s: string): seq<string> {
    SplitFrom(s, 0)
  }

  /** Pieces joined back with commas. */
  function Join(pieces: seq<string>): string
    requires |pieces| >= 1
  {
    if |pieces| == 1 then pieces[0] else pieces[0] + "," + Join(pieces[1..])
  }

  /** Splitting at commas loses nothing and leaves no comma inside a piece. */
  lemma {:induction false} SplitFromJoin(s: string, i: nat)
    requires i <= |s|
    ensures Join(SplitFrom(s, i)) == s[i..]
    ensures forall p :: p in SplitFrom(s, i) ==> ',' !in p
    decreases |s| - i
  {
    var k := IndexOf(s, ',', i);
    assert ',' !in s[i..k];
    if k < |s| {
      var j := NextPiece(s, i);
      SplitFromJoin(s, j);
      var rest := SplitFrom(s, j);
      assert SplitFrom(s, i) == [s[i..k]] + rest;
      assert (SplitFrom(s, i))[1..] == rest;
      assert s[i..] == s[i..k] + "," + s[j..];
    }
  }

  /** A piece that strtol reads up to its end with an acceptable value. */
  predicate PieceOk(p: string, nonzero: bool) {
    Strtol(p, 0).end == |p| && StrtolIsValid(PieceValue(p), Strtol(p, 0).overflow, nonzero)
  }

  /** strtol's value of the piece, cast to int. */
  function PieceValue(p: string): int {
    ToInt32(Strtol(p, 0).value)
  }

  /** When parse_comma_separated_ints(s, values, n, nonzero) succeeds: s splits at its commas
      into exactly n pieces, each read completely with an acceptable value. An empty piece has
      no digits and reads as 0. */
  predicate CommaInts(s: string, n: nat, nonzero: bool) {
    |Split(s)| == n && forall k :: 0 <= k < n ==> PieceOk(Split(s)[k], nonzero)
  }

  /** The values it then stores: those of the pieces, in order. */
  function CommaValues(s: string): (values: seq<int>)
    ensures |values| == |Split(s)|
    ensures forall k :: 0 <= k < |values| ==> values[k] == PieceValue(Split(s)[k])
  {
    seq(|Split(s)|, k requires 0 <= k < |Split(s)| => PieceValue(Split(s)[k]))
  }

  // The loop reads the string in place: strtol starts at the offset `pos` of the `input`
  // pointer. The predicates below describe that reading; ListOkSplit ties it to the pieces.

  /** strtol's value at position pos, cast to int. */
  function ValueAt(s: string, pos: nat): int
    requires pos <= |s|
  {
    ToInt32(Strtol(s, pos).value)
  }

  predicate ValidAt(s: string, pos: nat, nonzero: bool)
    requires pos <= |s|
  {
    StrtolIsValid(ValueAt(s, pos), Strtol(s, pos).overflow, nonzero)
  }

  /** strtol from pos stops exactly at the next comma (or the end) with an acceptable value. */
  predicate PieceOkAt(s: string, pos: nat, nonzero: bool)
    requires pos <= |s|
  {
    Strtol(s, pos).end == IndexOf(s, ',', pos) && ValidAt(s, pos, nonzero)
  }

  /** Reading m integers from position pos on: each piece read completely with an acceptable
      value, the last one ending the string and every other one followed by a comma. */
  predicate ListOk(s: string, pos: nat, m: nat, nonzero: bool)
    requires pos <= |s|
    decreases m
  {
    && m > 0
    && PieceOkAt(s, pos, nonzero)
    && if m == 1 then IndexOf(s, ',', pos) == |s|
       else IndexOf(s, ',', pos) < |s| && ListOk(s, NextPiece(s, pos), m - 1, nonzero)
  }

  /** The values of (at most) m pieces from position pos on. */
  function ListValues(s: string, pos: nat, m: nat): seq<int>
    requires pos <= |s|
    decreases m
  {
    if m == 0 then []
    else if m == 1 || IndexOf(s, ',', pos) == |s| then [ValueAt(s, pos)]
    else [ValueAt(s, pos)] + ListValues(s, NextPiece(s, pos), m - 1)
  }

  /** strtol in place at pos reads exactly what strtol reads in the piece s[pos..k], k being
      the next comma (or the end): a comma stops the scan. */
  lemma PieceAt(s: string, pos: nat, k: nat)
    requires pos <= |s| && k == IndexOf(s, ',', pos)
    ensures Strtol(s, pos).end == pos + Strtol(s[pos..k], 0).end
    ensures Strtol(s, pos).value == Strtol(s[pos..k], 0).value
    ensures Strtol(s, pos).overflow == Strtol(s[pos..k], 0).overflow
  {
    StrtolSuffix(s, pos);
    assert s[pos..] == s[pos..k] + s[k..];
    if k < |s| {
      assert s[k..][0] == ',';
      assert StopsScan(',');
    }
    ScanIntStops(s[pos..k], s[k..]);
  }

  /** The piece-level reading agrees with the in-place one. */
  lemma PieceOkAtPiece(s: string, pos: nat, k: nat, nonzero: bool)
    requires pos <= |s| && k == IndexOf(s, ',', pos)
    ensures PieceOkAt(s, pos, nonzero) <==> PieceOk(s[pos..k], nonzero)
    ensures ValueAt(s, pos) == PieceValue(s[pos..k])
  {
    PieceAt(s, pos, k);
  }

  /** strtol never reads past the next comma. */
  lemma StrtolInPiece(s: string, pos: nat)
    requires pos <= |s|
    ensures Strtol(s, pos).end <= IndexOf(s, ',', pos)
  {
    PieceAt(s, pos, IndexOf(s, ',', pos));
  }

  /** Every piece is read completely with an acceptable value. */
  predicate PiecesOk(ps: seq<string>, nonzero: bool) {
    |ps| == 0 || (PieceOk(ps[0], nonzero) && PiecesOk(ps[1..], nonzero))
  }

  /** The values of the pieces, in order. */
  function PiecesValues(ps: seq<string>): seq<int> {
    if |ps| == 0 then [] else [PieceValue(ps[0])] + PiecesValues(ps[1..])
  }

  lemma {:induction false} PiecesOkAll(ps: seq<string>, nonzero: bool)
    ensures PiecesOk(ps, nonzero) <==> forall k :: 0 <= k < |ps| ==> PieceOk(ps[k], nonzero)
  {
    if |ps| > 0 {
      PiecesOkAll(ps[1..], nonzero);
      assert forall k :: 1 <= k < |ps| ==> ps[k] == ps[1..][k - 1];
    }
  }

  lemma {:induction false} PiecesValuesAll(ps: seq<string>)
    ensures |PiecesValues(ps)| == |ps|
    ensures forall k :: 0 <= k < |ps| ==> PiecesValues(ps)[k] == PieceValue(ps[k])
  {
    if |ps| > 0 {
      PiecesValuesAll(ps[1..]);
      assert forall k :: 1 <= k < |ps| ==> ps[k] == ps[1..][k - 1];
    }
  }

  /** The first piece from pos on, and the pieces after it. */
  lemma SplitFromUnfold(s: string, pos: nat)
    requires pos <= |s|
    ensures IndexOf(s, ',', pos) == |s| ==> SplitFrom(s, pos) == [s[pos..IndexOf(s, ',', pos)]]
    ensures IndexOf(s, ',', pos) < |s| ==>
              SplitFrom(s, pos) == [s[pos..IndexOf(s, ',', pos)]] + SplitFrom(s, IndexOf(s, ',', pos) + 1)
  {
    if IndexOf(s, ',', pos) == |s| {
      assert s[pos..IndexOf(s, ',', pos)] == s[pos..];
    }
  }

  /** A piece followed by a comma: reading m pieces from pos is reading this one and m - 1
      from past the comma. */
  lemma ListOkCons(s: string, pos: nat, m: nat, nonzero: bool)
    requires pos <= |s| && m > 1 && IndexOf(s, ',', pos) < |s|
    requires var j := NextPiece(s, pos);
             && (ListOk(s, j, m - 1, nonzero) <==> |SplitFrom(s, j)| == m - 1 && PiecesOk(SplitFrom(s, j), nonzero))
             && (ListOk(s, j, m - 1, nonzero) ==> ListValues(s, j, m - 1) == PiecesValues(SplitFrom(s, j)))
    ensures ListOk(s, pos, m, nonzero) <==> |SplitFrom(s, pos)| == m && PiecesOk(SplitFrom(s, pos), nonzero)
    ensures ListOk(s, pos, m, nonzero) ==> ListValues(s, pos, m) == PiecesValues(SplitFrom(s, pos))
  {
    var k, j := IndexOf(s, ',', pos), NextPiece(s, pos);
    var ps := SplitFrom(s, pos);
    SplitFromUnfold(s, pos);
    PieceOkAtPiece(s, pos, k, nonzero);
    assert ps[0] == s[pos..k] && ps[1..] == SplitFrom(s, j);
    assert ListOk(s, pos, m, nonzero) == (PieceOkAt(s, pos, nonzero) && ListOk(s, j, m - 1, nonzero));
    assert PiecesOk(ps, nonzero) == (PieceOk(ps[0], nonzero) && PiecesOk(ps[1..], nonzero));
    assert ListValues(s, pos, m) == [ValueAt(s, pos)] + ListValues(s, j, m - 1);
    assert PiecesValues(ps) == [PieceValue(ps[0])] + PiecesValues(ps[1..]);
  }

  /** The in-place reading agrees with splitting at the commas. */
  lemma {:induction false} ListOkSplit(s: string, pos: nat, m: nat, nonzero: bool)
    requires pos <= |s|
    ensures ListOk(s, pos, m, nonzero) <==> |SplitFrom(s, pos)| == m && PiecesOk(SplitFrom(s, pos), nonzero)
    ensures ListOk(s, pos, m, nonzero) ==> ListValues(s, pos, m) == PiecesValues(SplitFrom(s, pos))
    decreases m
  {
    var k := IndexOf(s, ',', pos);
    if m > 1 && k < |s| {
      ListOkSplit(s, NextPiece(s, pos), m - 1, nonzero);
      ListOkCons(s, pos, m, nonzero);
    } else {
      SplitFromUnfold(s, pos);
      PieceOkAtPiece(s, pos, k, nonzero);
    }
  }

  /** Reading n integers in place means exactly what CommaInts and CommaValues state. */
  lemma ListOkIsCommaInts(s: string, n: nat, nonzero: bool)
    ensures ListOk(s, 0, n, nonzero) <==> CommaInts(s, n, nonzero)
    ensures ListOk(s, 0, n, nonzero) ==> ListValues(s, 0, n) == CommaValues(s)
  {
    ListOkSplit(s, 0, n, nonzero);
    PiecesOkAll(Split(s), nonzero);
    PiecesValuesAll(Split(s));
  }

  /** The character at strtol's end tells whether the piece ends there and whether a comma follows. */
  lemma EndChar(s: string, pos: nat, next: nat)
    requires NoNul(s) && pos <= |s| && next == Strtol(s, pos).end
    ensures CharAt(s, next) == ',' <==> next == IndexOf(s, ',', pos) < |s|
    ensures CharAt(s, next) == '\0' <==> next == IndexOf(s, ',', pos) == |s|
  {
    StrtolInPiece(s, pos);
  }

  /** A piece with an unacceptable value, or a piece not followed by a comma when more are
      expected, means the list is not a list of m integers. */
  lemma RejectPiece(s: string, pos: nat, next: nat, m: nat, nonzero: bool)
    requires NoNul(s) && pos <= |s| && next == Strtol(s, pos).end && m >= 1
    requires !ValidAt(s, pos, nonzero) || (m > 1 && CharAt(s, next) != ',')
    ensures !ListOk(s, pos, m, nonzero)
  {
    EndChar(s, pos, next);
  }

  /** A piece with an acceptable value followed by a comma: the list goes on after the comma,
      at `after`, with `rest` = m - 1 pieces to read. */
  lemma Advance(s: string, pos: nat, next: nat, after: nat, m: nat, rest: nat, nonzero: bool)
    requires NoNul(s) && pos <= |s| && next == Strtol(s, pos).end && m > 1
    requires ValidAt(s, pos, nonzero) && CharAt(s, next) == ','
    requires after == next + 1 && rest == m - 1
    ensures after <= |s|
    ensures ListOk(s, pos, m, nonzero) <==> ListOk(s, after, rest, nonzero)
    ensures ListValues(s, pos, m) == [ValueAt(s, pos)] + ListValues(s, after, rest)
  {
    EndChar(s, pos, next);
    assert IndexOf(s, ',', pos) < |s| && after == NextPiece(s, pos);
  }

  /** The last piece, with an acceptable value, completes the list exactly when it ends at the
      terminating NUL. */
  lemma AcceptLast(s: string, pos: nat, next: nat, nonzero: bool)
    requires NoNul(s) && pos <= |s| && next == Strtol(s, pos).end
    requires ValidAt(s, pos, nonzero)
    ensures CharAt(s, next) == '\0' <==> ListOk(s, pos, 1, nonzero)
    ensures ListValues(s, pos, 1) == [ValueAt(s, pos)]
  {
    EndChar(s, pos, next);
  }

  lemma AppendAssoc<T>(a: seq<T>, b: seq<T>, c: seq<T>)
    ensures a + (b + c) == (a + b) + c
  {
  }

  /** parse_comma_separated_ints. `pos` is the offset of the `input` pointer, `next` that of
      `*next`. Stores each value as it is read, then fails as soon as a value is invalid or a
      piece before the last is not followed by a comma; at the end the last piece must be
      followed by the terminating NUL. */
  method ParseCommaSeparatedInts(input: string, values: array<int>, n: nat, nonzero: bool) returns (ok: bool)
    requires NoNul(input)
    requires 1 <= n <= values.Length
    modifies values
    ensures ok <==> CommaInts(input, n, nonzero)
    ensures ok ==> values[..n] == CommaValues(input)
    ensures forall k :: n <= k < values.Length ==> values[k] == old(values[k])
  {
    ListOkIsCommaInts(input, n, nonzero);
    ghost var whole := ListOk(input, 0, n, nonzero);
    ghost var all := ListValues(input, 0, n);
    var pos: nat := 0;
    var next: nat := 0;
    ghost var left: nat := n;  // pieces still to read
    for i := 0 to n
      invariant left == n - i
      invariant i < n ==> && pos <= |input|
                          && (whole <==> ListOk(input, pos, left, nonzero))
                          && all == values[..i] + ListValues(input, pos, left)
      invariant i == n ==> && (whole <==> CharAt(input, next) == '\0')
                           && (whole ==> all == values[..n])
      invariant forall k :: n <= k < values.Length ==> values[k] == old(values[k])
    {
      var t := Strtol(input, pos);
      var value := ToInt32(t.value);
      values[i] := value;
      next := t.end;
      if !StrtolIsValid(value, t.overflow, nonzero) || (i < n - 1 && CharAt(input, next) != ',') {
        RejectPiece(input, pos, next, left, nonzero);
        return false;
      }
      assert values[..i + 1] == values[..i] + [value];
      var after: nat := next + 1;
      ghost var rest: nat := left - 1;
      if i < n - 1 {
        Advance(input, pos, next, after, left, rest, nonzero);
        AppendAssoc(values[..i], [value], ListValues(input, after, rest));
      } else {
        AcceptLast(input, pos, next, nonzero);
      }
      pos := after;
      left := rest;
    }
    ok := CharAt(input, next) == '\0';
  }
}
