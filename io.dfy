/** String handling of the settings reader: whitespace stripping, splitting at the
    first occurrence of a character, decimal rendering of trial indices, and the
    line logic that turns a settings text into key/value pairs. */
module Io {
  import opened Wrappers

  /** The characters strip_string removes: space, tab, newline and carriage return. */
  predicate IsSpace(ch: char) {
    ch == ' ' || ch == '\t' || ch == '\n' || ch == '\r'
  }

  /** std::string::find(c): the first index holding c; None plays npos. */
  function Find(c: char, s: string): (r: Option<nat>)
    ensures r.None? <==> c !in s
    ensures r.Some? ==> r.value < |s| && s[r.value] == c && c !in s[..r.value]
  {
    if s == [] then None
    else if s[0] == c then Some(0)
    else match Find(c, s[1..])
      case None => None
      case Some(i) => assert s[..i + 1] == [s[0]] + s[1..][..i]; Some(i + 1)
  }

  /** std::string::find_first_not_of(" \t\n\r"). */
  function FirstNotSpace(s: string): (r: Option<nat>)
    ensures r.None? <==> forall j :: 0 <= j < |s| ==> IsSpace(s[j])
    ensures r.Some? ==> r.value < |s| && !IsSpace(s[r.value])
    ensures r.Some? ==> forall j :: 0 <= j < r.value ==> IsSpace(s[j])
  {
    if s == [] then None
    else if !IsSpace(s[0]) then Some(0)
    else match FirstNotSpace(s[1..])
      case None => None
      case Some(i) => Some(i + 1)
  }

  /** std::string::find_last_not_of(" \t\n\r"). */
  function LastNotSpace(s: string): (r: Option<nat>)
    ensures r.None? <==> forall j :: 0 <= j < |s| ==> IsSpace(s[j])
    ensures r.Some? ==> r.value < |s| && !IsSpace(s[r.value])
    ensures r.Some? ==> forall j :: r.value < j < |s| ==> IsSpace(s[j])
  {
    if s == [] then None
    else if !IsSpace(s[|s| - 1]) then Some(|s| - 1)
    else LastNotSpace(s[..|s| - 1])
  }

  // Reference definition of stripping: drop whitespace from the front, then from the back.

  function TrimLeading(s: string): string {
    if s != [] && IsSpace(s[0]) then TrimLeading(s[1..]) else s
  }

  function TrimTrailing(s: string): string {
    if s != [] && IsSpace(s[|s| - 1]) then TrimTrailing(s[..|s| - 1]) else s
  }

  function Stripped(s: string): string {
    TrimTrailing(TrimLeading(s))
  }

  lemma {:induction false} TrimLeadingByFirst(s: string)
    ensures TrimLeading(s) == match FirstNotSpace(s) case None => [] case Some(i) => s[i..]
  {
    if s != [] && IsSpace(s[0]) {
      TrimLeadingByFirst(s[1..]);
      match FirstNotSpace(s[1..])
      case None =>
      case Some(i) => assert s[1..][i..] == s[i + 1..];
    }
  }

  lemma {:induction false} TrimTrailingByLast(s: string)
    ensures TrimTrailing(s) == match LastNotSpace(s) case None => [] case Some(i) => s[..i + 1]
  {
    if s != [] && IsSpace(s[|s| - 1]) {
      TrimTrailingByLast(s[..|s| - 1]);
      match LastNotSpace(s[..|s| - 1])
      case None =>
      case Some(i) => assert s[..|s| - 1][..i + 1] == s[..i + 1];
    }
  }

  /** strip_string: erase up to the first non-blank character (everything when there is
      none), then erase after the last one (npos + 1 wraps to 0: everything again). */
  method StripString(s: string) returns (r: string)
    ensures r == Stripped(s)
  {
    var idx := FirstNotSpace(s);
    r := if idx.None? then [] else s[idx.value..];
    var last := LastNotSpace(r);
    r := if last.None? then [] else r[..last.value + 1];
    TrimLeadingByFirst(s);
    TrimTrailingByLast(TrimLeading(s));
  }

  /** A non-blank position followed only by blanks is the last non-blank one. */
  lemma LastNotSpaceAt(s: string, k: nat)
    requires k < |s| && !IsSpace(s[k])
    requires forall j :: k < j < |s| ==> IsSpace(s[j])
    ensures LastNotSpace(s) == Some(k)
  {
  }

  /** The last non-blank of a suffix is the last non-blank of the whole string. */
  lemma LastOfSuffix(s: string, lo: nat, h: nat)
    requires lo <= |s| && LastNotSpace(s[lo..]) == Some(h)
    ensures LastNotSpace(s) == Some(lo + h)
  {
    var t := s[lo..];
    forall j | lo + h < j < |s| ensures IsSpace(s[j]) {
      assert s[j] == t[j - lo];
    }
    assert s[lo + h] == t[h];
    LastNotSpaceAt(s, lo + h);
  }

  /** Trimming the back of a suffix that starts at a non-blank keeps it up to the
      last non-blank of the whole string. */
  lemma TrimmedSuffix(s: string, lo: nat)
    requires lo < |s| && !IsSpace(s[lo])
    ensures LastNotSpace(s).Some? && lo <= LastNotSpace(s).value
    ensures TrimTrailing(s[lo..]) == s[lo..LastNotSpace(s).value + 1]
  {
    var t := s[lo..];
    assert !IsSpace(t[0]);
    TrimTrailingByLast(t);
    var h := LastNotSpace(t).value;
    assert TrimTrailing(t) == t[..h + 1];
    LastOfSuffix(s, lo, h);
    assert t[..h + 1] == s[lo..lo + h + 1];
  }

  /** The stripped string is s[lo..hi+1] where lo and hi are the first and last
      non-blank positions, and it is empty exactly when s is all blanks. */
  lemma StrippedSlice(s: string)
    ensures FirstNotSpace(s).None? <==> LastNotSpace(s).None?
    ensures FirstNotSpace(s).None? ==> Stripped(s) == []
    ensures FirstNotSpace(s).Some? ==>
      FirstNotSpace(s).value <= LastNotSpace(s).value &&
      Stripped(s) == s[FirstNotSpace(s).value .. LastNotSpace(s).value + 1]
  {
    TrimLeadingByFirst(s);
    match FirstNotSpace(s)
    case None =>
    case Some(lo) => TrimmedSuffix(s, lo);
  }

  /** Stripping yields the empty string exactly for blank input. */
  lemma StrippedEmptyIffBlank(s: string)
    ensures Stripped(s) == [] <==> forall j :: 0 <= j < |s| ==> IsSpace(s[j])
  {
    StrippedSlice(s);
  }

  /** The result neither starts nor ends with a blank. */
  lemma StrippedEnds(s: string)
    ensures Stripped(s) != [] ==> !IsSpace(Stripped(s)[0]) && !IsSpace(Stripped(s)[|Stripped(s)| - 1])
  {
    StrippedSlice(s);
  }

  /** Every character of the result comes from the input. */
  lemma StrippedChars(s: string, ch: char)
    ensures ch in Stripped(s) ==> ch in s
  {
    StrippedSlice(s);
    if ch in Stripped(s) {
      var lo := FirstNotSpace(s).value;
      var k :| 0 <= k < |Stripped(s)| && Stripped(s)[k] == ch;
      assert s[lo + k] == ch;
    }
  }

  /** Stripping twice is stripping once. */
  lemma StrippedIdempotent(s: string)
    ensures Stripped(Stripped(s)) == Stripped(s)
  {
    var t := Stripped(s);
    StrippedEnds(s);
    if t != [] {
      assert TrimLeading(t) == t;
      assert TrimTrailing(t) == t;
    }
  }

  /** split_string: the parts before and after the first occurrence of c;
      fatal when c does not occur. */
  method SplitString(c: char, s: string) returns (r: Result<(string, string)>)
    ensures r.Ok? <==> c in s
    ensures r.Ok? ==> s == r.value.0 + [c] + r.value.1 && c !in r.value.0
    ensures r.Ok? ==> r.value == (s[..Find(c, s).value], s[Find(c, s).value + 1..])
    ensures r.Fail? ==> r.msg == SplitFailure(c, s)
  {
    var idx := Find(c, s);
    if idx.None? {
      return Fail(SplitFailure(c, s));
    }
    r := Ok((s[..idx.value], s[idx.value + 1..]));
    assert s == s[..idx.value] + [c] + s[idx.value + 1..];
  }

  function SplitFailure(c: char, s: string): string {
    "FAILURE: cannot split string" + s + "on character" + [c]
  }

  // ---------------------------------------------------------------------------
  // decimal rendering

  function DigitChar(d: nat): char
    requires d < 10
  {
    (('0' as int) + d) as char
  }

  function NatToString(n: nat): string
    decreases n
  {
    if n < 10 then [DigitChar(n)] else NatToString(n / 10) + [DigitChar(n % 10)]
  }

  /** int_to_string: the decimal form, with a leading '-' for negative values. */
  function IntToString(i: int): string {
    if i < 0 then "-" + NatToString(-i) else NatToString(i)
  }

  predicate IsDigit(ch: char) {
    '0' as int <= ch as int <= '9' as int
  }

  function DigitValue(ch: char): nat
    requires IsDigit(ch)
  {
    (ch as int) - ('0' as int)
  }

  /** Reading a string of decimal digits back as a number. */
  function ParseNat(s: string): nat
    requires forall j :: 0 <= j < |s| ==> IsDigit(s[j])
    decreases |s|
  {
    if s == [] then 0 else ParseNat(s[..|s| - 1]) * 10 + DigitValue(s[|s| - 1])
  }

  function ParseInt(s: string): int
    requires s != [] && (s[0] == '-' || IsDigit(s[0]))
    requires forall j :: 1 <= j < |s| ==> IsDigit(s[j])
  {
    if s[0] == '-' then 0 - ParseNat(s[1..]) else ParseNat(s)
  }

  lemma {:induction false} NatToStringDigits(n: nat)
    ensures NatToString(n) != []
    ensures forall j :: 0 <= j < |NatToString(n)| ==> IsDigit(NatToString(n)[j])
    ensures ParseNat(NatToString(n)) == n
    decreases n
  {
    if n >= 10 {
      NatToStringDigits(n / 10);
      var s := NatToString(n);
      assert s[..|s| - 1] == NatToString(n / 10);
    }
  }

  /** Rendering then reading back gives the number again. */
  lemma IntToStringRoundTrip(i: int)
    ensures IntToString(i) != []
    ensures IntToString(i)[0] == '-' || IsDigit(IntToString(i)[0])
    ensures forall j :: 1 <= j < |IntToString(i)| ==> IsDigit(IntToString(i)[j])
    ensures ParseInt(IntToString(i)) == i
  {
    if i < 0 {
      NatToStringDigits(-i);
      assert IntToString(i)[1..] == NatToString(-i);
    } else {
      NatToStringDigits(i);
    }
  }

  /** Distinct trial indices give distinct trial names. */
  lemma IntToStringInjective(i: int, j: int)
    requires i != j
    ensures IntToString(i) != IntToString(j)
  {
    IntToStringRoundTrip(i);
    IntToStringRoundTrip(j);
  }

  // ---------------------------------------------------------------------------
  // settings text

  datatype Pair = Pair(key: string, val: string)

  /** The part of a line before its first '#'. */
  function Uncommented(t: string): string {
    match Find('#', t)
    case None => t
    case Some(h) => t[..h]
  }

  /** A line that read_values keeps: not blank, and not a whole-line comment. */
  predicate Kept(line: string) {
    var t := Stripped(line);
    |t| > 0 && t[0] != '#'
  }

  /** The effect of one line: nothing, a pair, or the fatal split failure. */
  function LineEntry(line: string): Result<Option<Pair>> {
    if !Kept(line) then Ok(None)
    else
      var cut := Uncommented(Stripped(line));
      match Find('=', cut)
      case None => Fail(SplitFailure('=', cut))
      case Some(e) => Ok(Some(Pair(Stripped(cut[..e]), Stripped(cut[e + 1..]))))
  }

  /** The pairs of a whole text, or the first failure in it. */
  function ParseLines(lines: seq<string>): Result<seq<Pair>> {
    if lines == [] then Ok([])
    else match LineEntry(lines[0])
      case Fail(m) => Fail(m)
      case Ok(e) =>
        match ParseLines(lines[1..])
        case Fail(m) => Fail(m)
        case Ok(rest) => Ok(Emitted(e) + rest)
  }

  function Prepend(acc: seq<Pair>, r: Result<seq<Pair>>): Result<seq<Pair>> {
    match r
    case Ok(ps) => Ok(acc + ps)
    case Fail(m) => Fail(m)
  }

  function Emitted(e: Option<Pair>): seq<Pair> {
    if e.Some? then [e.value] else []
  }

  lemma PrependConcat(a: seq<Pair>, b: seq<Pair>, r: Result<seq<Pair>>)
    ensures Prepend(a, Prepend(b, r)) == Prepend(a + b, r)
  {
    match r
    case Ok(ps) => assert a + (b + ps) == (a + b) + ps;
    case Fail(_) =>
  }

  /** read_values over the lines of a settings file. */
  method ReadValues(lines: seq<string>) returns (r: Result<seq<Pair>>)
    ensures r == ParseLines(lines)
  {
    var acc: seq<Pair> := [];
    var i := 0;
    assert lines[i..] == lines;
    assert Prepend([], ParseLines(lines)) == ParseLines(lines) by {
      match ParseLines(lines)
      case Ok(ps) => assert [] + ps == ps;
      case Fail(_) =>
    }
    while i < |lines|
      invariant 0 <= i <= |lines|
      invariant ParseLines(lines) == Prepend(acc, ParseLines(lines[i..]))
    {
      assert lines[i..][0] == lines[i] && lines[i..][1..] == lines[i + 1..];
      var line := StripString(lines[i]);
      var idx := Find('#', line);
      assert Kept(lines[i]) <==> |line| > 0 && idx != Some(0);
      ghost var rest := ParseLines(lines[i + 1..]);
      assert LineEntry(lines[i]).Ok? ==>
        ParseLines(lines[i..]) == Prepend(Emitted(LineEntry(lines[i]).value), rest) by {
        if LineEntry(lines[i]).Ok? {
          match rest
          case Ok(_) =>
          case Fail(_) =>
        }
      }
      if |line| > 0 && idx != Some(0) {
        if idx.Some? {
          line := line[..idx.value];
        }
        assert line == Uncommented(Stripped(lines[i]));
        var parts := SplitString('=', line);
        if parts.Fail? {
          return Fail(parts.msg);
        }
        var key := StripString(parts.value.0);
        var val := StripString(parts.value.1);
        assert LineEntry(lines[i]) == Ok(Some(Pair(key, val)));
        PrependConcat(acc, [Pair(key, val)], rest);
        acc := acc + [Pair(key, val)];
      } else {
        PrependConcat(acc, [], rest);
        assert acc + [] == acc;
      }
      i := i + 1;
    }
    assert lines[i..] == [];
    assert acc + [] == acc;
    return Ok(acc);
  }

  /** The kept lines, in file order. */
  function KeptLines(lines: seq<string>): seq<string> {
    if lines == [] then []
    else (if Kept(lines[0]) then [lines[0]] else []) + KeptLines(lines[1..])
  }

  /** A pair as read_values emits it: both parts stripped and free of '#', and no '='
      in the key (the value may hold further '=' characters). */
  predicate WellFormedPair(p: Pair) {
    && '#' !in p.key && '=' !in p.key && '#' !in p.val
    && Stripped(p.key) == p.key && Stripped(p.val) == p.val
  }

  lemma LineEntryPair(line: string)
    requires LineEntry(line).Ok? && LineEntry(line).value.Some?
    ensures WellFormedPair(LineEntry(line).value.value)
  {
    var cut := Uncommented(Stripped(line));
    var e := Find('=', cut).value;
    assert '#' !in cut;
    var k, v := cut[..e], cut[e + 1..];
    StrippedChars(k, '#');
    StrippedChars(k, '=');
    StrippedChars(v, '#');
    StrippedIdempotent(k);
    StrippedIdempotent(v);
  }

  /** One pair per kept line, in file order, each the entry of its line. */
  lemma {:induction false} ReadValuesPairs(lines: seq<string>)
    requires ParseLines(lines).Ok?
    ensures |ParseLines(lines).value| == |KeptLines(lines)|
    ensures forall j :: 0 <= j < |KeptLines(lines)| ==>
      LineEntry(KeptLines(lines)[j]) == Ok(Some(ParseLines(lines).value[j]))
  {
    if lines != [] {
      ReadValuesPairs(lines[1..]);
      var e := LineEntry(lines[0]).value;
      var ps, ps' := ParseLines(lines).value, ParseLines(lines[1..]).value;
      var ks, ks' := KeptLines(lines), KeptLines(lines[1..]);
      if Kept(lines[0]) {
        assert e.Some?;
        assert ks == [lines[0]] + ks' && ps == [e.value] + ps';
        forall j | 0 <= j < |ks| ensures LineEntry(ks[j]) == Ok(Some(ps[j])) {
          if j > 0 {
            assert ks[j] == ks'[j - 1] && ps[j] == ps'[j - 1];
          }
        }
      } else {
        assert ks == ks' && ps == ps';
      }
    }
  }

  /** Every pair read_values returns is well formed. */
  lemma ReadValuesWellFormed(lines: seq<string>)
    requires ParseLines(lines).Ok?
    ensures forall j :: 0 <= j < |ParseLines(lines).value| ==> WellFormedPair(ParseLines(lines).value[j])
  {
    ReadValuesPairs(lines);
    var ks := KeptLines(lines);
    forall j | 0 <= j < |ParseLines(lines).value| ensures WellFormedPair(ParseLines(lines).value[j]) {
      LineEntryPair(ks[j]);
    }
  }

  /** A kept line whose uncommented part lacks '='. */
  predicate MissingEquals(line: string) {
    Kept(line) && '=' !in Uncommented(Stripped(line))
  }

  /** read_values fails exactly when some kept line has no '=' before its comment. */
  lemma {:induction false} ReadValuesFailsIff(lines: seq<string>)
    ensures ParseLines(lines).Fail? <==> exists j :: 0 <= j < |lines| && MissingEquals(lines[j])
  {
    if lines != [] {
      ReadValuesFailsIff(lines[1..]);
      if exists j :: 0 <= j < |lines| - 1 && MissingEquals(lines[1..][j]) {
        var j :| 0 <= j < |lines| - 1 && MissingEquals(lines[1..][j]);
        assert MissingEquals(lines[j + 1]);
      }
      if exists j :: 0 <= j < |lines| && MissingEquals(lines[j]) {
        var j :| 0 <= j < |lines| && MissingEquals(lines[j]);
        if j > 0 {
          assert MissingEquals(lines[1..][j - 1]);
        }
      }
    }
  }
}
