/** The URL template language of the targets file.

    A URL may hold placeholders in square brackets:
      - `[a-b]`            the decimal numbers a, a+1, ..., b, one per URL;
      - `[rLEN;x-y_u-v]`   a random string of LEN characters drawn from the
                           character ranges x..y, u..v, ...
    followed, after a space, by an explicit count of URLs to generate. A
    numeric range supplies the count by itself and wins over an explicit one.

    Randomness is a draw oracle: `draw(k)` is the k-th value `rand.Int63`
    returns, and `pos` is how many values have been drawn so far. */
module UrlTemplate {
  import opened Faults
  import opened GoStrings
  import opened GoStrconv

  // ---------------------------------------------------------------------
  // Finding placeholders: the pattern `\[(r?[^\]]*)\]`

  /** The placeholder pattern matches somewhere in `s` exactly when a `[`
      has a `]` after it. */
  predicate HasPlaceholder(s: string) {
    exists i, j :: 0 <= i < j < |s| && s[i] == '[' && s[j] == ']'
  }

  /** Inner texts of the successive non-overlapping matches of
      `\[(r?[^\]]*)\]`, from the left: each runs from a `[` to the first `]`
      after it. */
  function Placeholders(s: string): seq<string>
    decreases |s|
  {
    if |s| == 0 then []
    else if s[0] == '[' && ']' in s[1..] then
      var j := IndexOf(s[1..], ']');
      [s[1..1 + j]] + Placeholders(s[j + 2..])
    else Placeholders(s[1..])
  }

  /** The scan finds a placeholder exactly when the pattern matches, and no
      inner text holds a `]`. */
  lemma {:induction false} PlaceholdersSpec(s: string)
    ensures |Placeholders(s)| == 0 <==> !HasPlaceholder(s)
    ensures forall k :: 0 <= k < |Placeholders(s)| ==> ']' !in Placeholders(s)[k]
    decreases |s|
  {
    if |s| > 0 {
      if s[0] == '[' && ']' in s[1..] {
        var j := IndexOf(s[1..], ']');
        assert s[1 + j] == ']';
        assert s[1..1 + j] == s[1..][..j];
        PlaceholdersSpec(s[j + 2..]);
        assert HasPlaceholder(s);
      } else {
        PlaceholdersSpec(s[1..]);
        NoPlaceholderStartsAtHead(s);
      }
    }
  }

  /** When no match starts at `s[0]`, matches of `s` are those of `s[1..]`. */
  lemma NoPlaceholderStartsAtHead(s: string)
    requires |s| > 0 && !(s[0] == '[' && ']' in s[1..])
    ensures HasPlaceholder(s) <==> HasPlaceholder(s[1..])
  {
    if HasPlaceholder(s) {
      var i, j :| 0 <= i < j < |s| && s[i] == '[' && s[j] == ']';
      assert s[1..][j - 1] == ']';
      assert i > 0;
      assert s[1..][i - 1] == '[';
    }
    if HasPlaceholder(s[1..]) {
      var i, j :| 0 <= i < j < |s[1..]| && s[1..][i] == '[' && s[1..][j] == ']';
      assert s[i + 1] == '[' && s[j + 1] == ']';
    }
  }

  /** The text before the first space: the URL proper, without a count. */
  function UrlField(s: string): string {
    SplitN2(s, ' ')[0]
  }

  // ---------------------------------------------------------------------
  // Numeric ranges: the pattern `\[(\d+-\d+)\]`

  /** Length of the run of ASCII digits that starts `s`. */
  function LeadingDigits(s: string): (n: nat)
    ensures n <= |s|
    decreases |s|
  {
    if |s| > 0 && IsDigit(s[0]) then 1 + LeadingDigits(s[1..]) else 0
  }

  /** The run is all digits, and the character after it is not one. */
  lemma {:induction false} LeadingDigitsRun(s: string)
    ensures AllDigits(s[..LeadingDigits(s)])
    ensures LeadingDigits(s) < |s| ==> !IsDigit(s[LeadingDigits(s)])
    decreases |s|
  {
    if |s| > 0 && IsDigit(s[0]) {
      LeadingDigitsRun(s[1..]);
      var n := LeadingDigits(s);
      assert s[..n] == [s[0]] + s[1..][..n - 1];
    }
  }

  /** `t` is `\d+-\d+`: digits, one dash, digits. */
  predicate IsDigitRange(t: string) {
    var a := LeadingDigits(t);
    0 < a < |t| - 1 && t[a] == '-' && AllDigits(t[a + 1..])
  }

  /** Length of the `\[\d+-\d+\]` match at the very start of `s`, 0 if none. */
  function RangeSpecLength(s: string): (n: nat)
    ensures n == 0 || 5 <= n <= |s|
  {
    if |s| > 0 && s[0] == '[' then
      var a := LeadingDigits(s[1..]);
      if 0 < a && 1 + a < |s| && s[1 + a] == '-' then
        var b := LeadingDigits(s[2 + a..]);
        if 0 < b && 2 + a + b < |s| && s[2 + a + b] == ']' then 3 + a + b
        else 0
      else 0
    else 0
  }

  /** A match found by `RangeSpecLength` is `[`, digits, `-`, digits, `]`. */
  lemma RangeSpecLengthMatches(s: string)
    requires RangeSpecLength(s) > 0
    ensures s[0] == '[' && s[RangeSpecLength(s) - 1] == ']'
    ensures IsDigitRange(s[1..RangeSpecLength(s) - 1])
  {
    var a := LeadingDigits(s[1..]);
    var b := LeadingDigits(s[2 + a..]);
    var t := s[1..2 + a + b];
    LeadingDigitsRun(s[1..]);
    LeadingDigitsRun(s[2 + a..]);
    assert t[..a] == s[1..][..a];
    assert LeadingDigits(t) == a by {
      LeadingDigitsPrefix(s[1..], t);
    }
    assert s[2 + a..][..b] == s[2 + a..2 + a + b];
    assert t[a + 1..] == s[2 + a..][..b];
  }

  /** `LeadingDigits` only looks as far as the first non-digit. */
  lemma {:induction false} LeadingDigitsPrefix(s: string, t: string)
    requires LeadingDigits(s) < |t| <= |s| && t == s[..|t|]
    ensures LeadingDigits(t) == LeadingDigits(s)
    decreases |s|
  {
    if |s| > 0 && IsDigit(s[0]) {
      LeadingDigitsPrefix(s[1..], t[1..]);
    }
  }

  /** Inner texts of the successive non-overlapping matches of `\[(\d+-\d+)\]`. */
  function RangeSpecs(s: string): seq<string>
    decreases |s|
  {
    if |s| == 0 then []
    else
      var n := RangeSpecLength(s);
      if n > 0 then [s[1..n - 1]] + RangeSpecs(s[n..]) else RangeSpecs(s[1..])
  }

  /** Every numeric range found is digits, a dash, digits. */
  lemma {:induction false} RangeSpecsAreDigitRanges(s: string)
    ensures forall k :: 0 <= k < |RangeSpecs(s)| ==> IsDigitRange(RangeSpecs(s)[k])
    decreases |s|
  {
    if |s| > 0 {
      var n := RangeSpecLength(s);
      if n > 0 {
        RangeSpecLengthMatches(s);
        RangeSpecsAreDigitRanges(s[n..]);
        assert RangeSpecs(s) == [s[1..n - 1]] + RangeSpecs(s[n..]);
      } else {
        RangeSpecsAreDigitRanges(s[1..]);
      }
    }
  }

  // ---------------------------------------------------------------------
  // getMinMax and getCount

  /** `getMinMax`: parse `min-max`. Both bounds are Go `int`s, neither is
      negative (a `-` before a bound would be a second dash), and min <= max. */
  function GetMinMax(stmt: string): (r: Result<(int, int)>)
    ensures r.Ok? ==> 0 <= r.value.0 <= r.value.1 && InInt64(r.value.1)
    ensures r.Fail? ==>
      || r.fault.RangeMissingBound? || r.fault.RangeMinNotInteger?
      || r.fault.RangeMaxNotInteger? || r.fault.RangeInverted?
  {
    var minmax := Split(stmt, '-');
    if |minmax| != 2 then Fail(RangeMissingBound)
    else
      match Atoi(minmax[0])
      case None => Fail(RangeMinNotInteger)
      case Some(lo) =>
        match Atoi(minmax[1])
        case None => Fail(RangeMaxNotInteger)
        case Some(hi) =>
          if lo > hi then Fail(RangeInverted)
          else
            AtoiWithoutMinusIsNonNegative(minmax[0]);
            Ok((lo, hi))
  }

  /** `getMinMax` checks in order: anything but exactly one dash is a
      missing bound; then the text before the dash must be an integer, then
      the text after it, and the first must not exceed the second; the
      answer is then the two integers. */
  lemma GetMinMaxSpec(stmt: string)
    ensures GetMinMax(stmt) == Fail(RangeMissingBound) <==> multiset(stmt)['-'] != 1
    ensures multiset(stmt)['-'] == 1 ==>
      var i := IndexOf(stmt, '-');
      var lo := Atoi(stmt[..i]);
      var hi := Atoi(stmt[i + 1..]);
      && (GetMinMax(stmt) == Fail(RangeMinNotInteger) <==> lo.None?)
      && (GetMinMax(stmt) == Fail(RangeMaxNotInteger) <==> lo.Some? && hi.None?)
      && (GetMinMax(stmt) == Fail(RangeInverted) <==> lo.Some? && hi.Some? && lo.value > hi.value)
      && (GetMinMax(stmt).Ok? ==> GetMinMax(stmt).value == (lo.value, hi.value))
  {
    SplitCount(stmt, '-');
    OneDashSplit(stmt);
  }

  /** A text with a single dash splits into the text before it and the text after it. */
  lemma OneDashSplit(stmt: string)
    ensures multiset(stmt)['-'] == 1 ==>
      && '-' in stmt
      && Split(stmt, '-') == [stmt[..IndexOf(stmt, '-')], stmt[IndexOf(stmt, '-') + 1..]]
  {
    if multiset(stmt)['-'] == 1 {
      assert '-' in multiset(stmt);
      var i := IndexOf(stmt, '-');
      var a, b := stmt[..i], stmt[i + 1..];
      assert stmt == a + ['-'] + b;
      assert multiset(stmt) == multiset(a) + multiset{'-'} + multiset(b);
      assert '-' !in multiset(b);
      SplitOneSeparator(a, '-', b);
    }
  }

  /** What `getMinMax` answers for the two sides of a single dash: the first
      side that is not an integer, else an inverted range, else the pair. */
  lemma GetMinMaxOfSides(a: string, b: string)
    requires '-' !in a && '-' !in b
    ensures GetMinMax(a + "-" + b) ==
      if Atoi(a).None? then Fail(RangeMinNotInteger)
      else if Atoi(b).None? then Fail(RangeMaxNotInteger)
      else if Atoi(a).value > Atoi(b).value then Fail(RangeInverted)
      else Ok((Atoi(a).value, Atoi(b).value))
  {
    SplitOneSeparator(a, '-', b);
  }

  /** Printing a range and parsing it back gives the bounds again; an
      inverted range is rejected. */
  lemma GetMinMaxRoundTrip(lo: nat, hi: nat)
    requires lo <= MaxInt64 && hi <= MaxInt64
    ensures GetMinMax(Itoa(lo) + "-" + Itoa(hi)) == if lo <= hi then Ok((lo, hi)) else Fail(RangeInverted)
  {
    DigitsAreNotDelimiters(Itoa(lo));
    DigitsAreNotDelimiters(Itoa(hi));
    AtoiItoa(lo);
    AtoiItoa(hi);
    GetMinMaxOfSides(Itoa(lo), Itoa(hi));
  }

  /** Every range spec parses with `getMinMax`. */
  predicate AllRangesParse(specs: seq<string>)
    decreases |specs|
  {
    |specs| == 0 || (GetMinMax(specs[0]).Ok? && AllRangesParse(specs[1..]))
  }

  /** Number of values `[min-max]` stands for. */
  function RangeWidth(spec: string): (w: int)
    requires GetMinMax(spec).Ok?
    ensures w >= 1
  {
    GetMinMax(spec).value.1 - GetMinMax(spec).value.0 + 1
  }

  /** The product of the widths of all ranges. */
  function RangeProduct(specs: seq<string>): (p: int)
    requires AllRangesParse(specs)
    ensures p >= 1
    decreases |specs|
  {
    if |specs| == 0 then 1
    else
      var w := RangeWidth(specs[0]);
      var rest := RangeProduct(specs[1..]);
      ProductGrows(w, rest);
      w * rest
  }

  lemma ProductGrows(w: int, rest: int)
    requires w >= 1 && rest >= 1
    ensures w * rest >= rest
  {
  }

  /** How many integers lie from lo to hi: `(max - min) + 1` in `getCount`. */
  function Width(lo: int, hi: int): int {
    hi - lo + 1
  }

  /** The widths of the ranges, in order; the fault of the first range that
      does not parse otherwise. */
  function RangeWidths(specs: seq<string>): (r: Result<seq<int>>)
    ensures r.Ok? <==> AllRangesParse(specs)
    ensures r.Ok? ==> |r.value| == |specs| && forall k :: 0 <= k < |specs| ==> r.value[k] >= 1
    decreases |specs|
  {
    if |specs| == 0 then Ok([])
    else
      match GetMinMax(specs[0])
      case Fail(f) => Fail(f)
      case Ok(mm) =>
        var rest :- RangeWidths(specs[1..]);
        Ok([mm.1 - mm.0 + 1] + rest)
  }

  /** The widths multiply to the product of the ranges. */
  lemma {:induction false} RangeWidthsProduct(specs: seq<string>)
    requires AllRangesParse(specs)
    ensures Product(RangeWidths(specs).value) == RangeProduct(specs)
    decreases |specs|
  {
    if |specs| > 0 {
      RangeWidthsProduct(specs[1..]);
      var ws := RangeWidths(specs).value;
      assert ws == [RangeWidth(specs[0])] + RangeWidths(specs[1..]).value;
      assert ws[1..] == RangeWidths(specs[1..]).value;
    }
  }

  function Product(ws: seq<int>): int
    decreases |ws|
  {
    if |ws| == 0 then 1 else ws[0] * Product(ws[1..])
  }

  /** The multiplication loop of `getCount`: a zero count takes the next
      width, any other count is multiplied by it. */
  function CountOver(ws: seq<int>, count: int): int
    decreases |ws|
  {
    if |ws| == 0 then count
    else CountOver(ws[1..], if count == 0 then ws[0] else count * ws[0])
  }

  /** A non-zero count is scaled by the product of the remaining widths. */
  lemma {:induction false} CountOverScales(ws: seq<int>, count: int)
    requires count != 0 && forall k :: 0 <= k < |ws| ==> ws[k] >= 1
    ensures CountOver(ws, count) == count * Product(ws)
    decreases |ws|
  {
    if |ws| > 0 {
      CountStep(count, ws[0], Product(ws[1..]));
      CountOverScales(ws[1..], count * ws[0]);
    }
  }

  /** Starting from the zero count, the first width sets the count. */
  lemma CountOverFromZero(ws: seq<int>)
    requires |ws| > 0 && forall k :: 0 <= k < |ws| ==> ws[k] >= 1
    ensures CountOver(ws, 0) == Product(ws)
  {
    assert CountOver(ws, 0) == CountOver(ws[1..], ws[0]);
    CountOverScales(ws[1..], ws[0]);
  }

  /** Arithmetic of one step of `CountOver` from a non-zero count. */
  lemma CountStep(count: int, w: int, p: int)
    requires count != 0 && w >= 1
    ensures count * w != 0 && count * w * p == count * (w * p)
  {
  }

  /** `getCount`: the number of URLs a template stands for. */
  function GetCount(url: string): Result<int> {
    var specs := RangeSpecs(url);
    if |specs| > 0 then
      var ws :- RangeWidths(specs);
      Ok(CountOver(ws, 0))
    else
      var split := SplitN2(url, ' ');
      if |split| != 2 then Fail(CountSyntax)
      else
        match Atoi(split[1])
        case None => Fail(CountNotInteger)
        case Some(c) => Ok(c)
  }

  /** With `[digits-digits]` ranges in the URL, `getCount` gives the product
      of their widths, or fails when one does not parse (a range wins over an
      explicit count); without, the integer after the first space; otherwise
      an error. */
  lemma GetCountSpec(url: string)
    ensures |RangeSpecs(url)| > 0 ==> (GetCount(url).Ok? <==> AllRangesParse(RangeSpecs(url)))
    ensures |RangeSpecs(url)| > 0 && GetCount(url).Ok? ==> GetCount(url).value == RangeProduct(RangeSpecs(url))
    ensures |RangeSpecs(url)| == 0 && ' ' !in url ==> GetCount(url) == Fail(CountSyntax)
    ensures |RangeSpecs(url)| == 0 && ' ' in url ==>
      var after := SplitN2(url, ' ')[1];
      GetCount(url) == if Atoi(after).Some? then Ok(Atoi(after).value) else Fail(CountNotInteger)
  {
    var specs := RangeSpecs(url);
    if |specs| > 0 && AllRangesParse(specs) {
      var ws := RangeWidths(specs).value;
      CountOverFromZero(ws);
      RangeWidthsProduct(specs);
    }
  }

  // ---------------------------------------------------------------------
  // Character ranges and random strings

  /** The program only builds character ranges from one-byte strings. */
  type AsciiChar = c: char | c as int < 0x80 witness 'a'

  datatype CharRange = CharRange(lo: AsciiChar, hi: AsciiChar)

  /** Characters with codes lo, lo+1, ..., hi. */
  function CharsBetween(lo: int, hi: int): (out: string)
    requires 0 <= lo && hi < 0x80
    ensures |out| == if lo <= hi then hi - lo + 1 else 0
    ensures forall k :: 0 <= k < |out| ==> out[k] as int == lo + k
    decreases hi - lo
  {
    if lo > hi then "" else [lo as char] + CharsBetween(lo + 1, hi)
  }

  /** `makeCharList`: every character from `lo` to `hi` inclusive, in
      ascending order; empty when `lo > hi`. */
  function MakeCharList(r: CharRange): (out: string)
    ensures r.lo > r.hi ==> out == ""
    ensures r.lo <= r.hi ==> |out| == r.hi as int - r.lo as int + 1
    ensures forall k :: 0 <= k < |out| ==> out[k] as int == r.lo as int + k
  {
    CharsBetween(r.lo as int, r.hi as int)
  }

  /** A character is in the list exactly when it lies between the bounds. */
  lemma MakeCharListMembers(r: CharRange, c: char)
    ensures c in MakeCharList(r) <==> r.lo <= c <= r.hi
  {
    var out := MakeCharList(r);
    if r.lo <= c <= r.hi {
      var k := c as int - r.lo as int;
      assert out[k] as int == c as int;
    }
  }

  /** `randomString`'s `charlist`: the lists of all ranges, concatenated. */
  function CharList(ranges: seq<CharRange>): (cl: string)
    ensures forall k :: 0 <= k < |cl| ==> cl[k] as int < 0x80
    decreases |ranges|
  {
    if |ranges| == 0 then ""
    else MakeCharList(ranges[0]) + CharList(ranges[1..])
  }

  /** Inverted ranges only (`z-a`) give an empty character list. */
  lemma {:induction false} InvertedRangesEmpty(ranges: seq<CharRange>)
    requires forall k :: 0 <= k < |ranges| ==> ranges[k].lo > ranges[k].hi
    ensures CharList(ranges) == ""
    decreases |ranges|
  {
    if |ranges| > 0 {
      InvertedRangesEmpty(ranges[1..]);
    }
  }

  /** `len(x) <= 1` for a Go string of valid UTF-8, which counts bytes:
      empty, or one ASCII character. */
  predicate AtMostOneByte(x: string) {
    |x| == 0 || (|x| == 1 && x[0] as int < 0x80)
  }

  /** The loop of `parseUrl` over the `_`-separated character ranges. */
  function ParseCharRanges(specs: seq<string>): (r: Result<seq<CharRange>>)
    ensures r.Ok? ==> |r.value| == |specs|
    ensures r.Ok? ==> forall k :: 0 <= k < |specs| ==>
      specs[k] == [r.value[k].lo] + "-" + [r.value[k].hi]
    ensures r.Fail? ==> r.fault == CharRangeInvalid || r.fault == Panic(IndexOutOfRange)
    decreases |specs|
  {
    if |specs| == 0 then Ok([])
    else
      var minmax := Split(specs[0], '-');
      if |minmax| != 2 || !AtMostOneByte(minmax[0]) || !AtMostOneByte(minmax[1]) then
        Fail(CharRangeInvalid)
      else if |minmax[0]| == 0 || |minmax[1]| == 0 then
        Fail(Panic(IndexOutOfRange))
      else
        var rest :- ParseCharRanges(specs[1..]);
        var cr := CharRange(minmax[0][0], minmax[1][0]);
        assert specs[0] == [cr.lo] + "-" + [cr.hi] by {
          assert minmax[0] == [cr.lo] && minmax[1] == [cr.hi];
          SplitJoin(specs[0], '-');
          assert Join(minmax, '-') == specs[0];
        }
        Ok([cr] + rest)
  }

  /** A character range as `parseUrl` accepts it: one ASCII character, a
      dash, one ASCII character, neither side a dash. */
  predicate IsCharRange(x: string) {
    |x| == 3 && x[1] == '-' && x[0] != '-' && x[2] != '-' && x[0] as int < 0x80 && x[2] as int < 0x80
  }

  /** A piece that passes the length check with an empty side: `-`, `-a`
      or `a-`, with `a` one ASCII character other than a dash. */
  predicate HasEmptySide(x: string) {
    || x == "-"
    || (|x| == 2 && x[0] == '-' && x[1] != '-' && x[1] as int < 0x80)
    || (|x| == 2 && x[1] == '-' && x[0] != '-' && x[0] as int < 0x80)
  }

  /** The checks of the loop body on one piece, in terms of the piece's text:
      the split and length check pass exactly for a character range or a
      piece with an empty side, and a side is empty exactly in the latter. */
  lemma CharRangePieces(x: string)
    ensures var mm := Split(x, '-');
      && ((|mm| == 2 && AtMostOneByte(mm[0]) && AtMostOneByte(mm[1])) <==> (IsCharRange(x) || HasEmptySide(x)))
      && (|mm| == 2 && AtMostOneByte(mm[0]) && AtMostOneByte(mm[1]) ==>
            ((|mm[0]| == 0 || |mm[1]| == 0) <==> HasEmptySide(x)))
  {
    var mm := Split(x, '-');
    if |mm| == 2 && AtMostOneByte(mm[0]) && AtMostOneByte(mm[1]) {
      SplitJoin(x, '-');
      assert mm[1..] == [mm[1]];
      assert x == mm[0] + "-" + mm[1];
    }
    if IsCharRange(x) {
      assert x == [x[0]] + "-" + [x[2]];
      SplitOneSeparator([x[0]], '-', [x[2]]);
    } else if x == "-" {
      assert x == "" + "-" + "";
      SplitOneSeparator("", '-', "");
    } else if |x| == 2 && x[0] == '-' && x[1] != '-' && x[1] as int < 0x80 {
      assert x == "" + "-" + [x[1]];
      SplitOneSeparator("", '-', [x[1]]);
    } else if |x| == 2 && x[1] == '-' && x[0] != '-' && x[0] as int < 0x80 {
      assert x == [x[0]] + "-" + "";
      SplitOneSeparator([x[0]], '-', "");
    }
  }

  /** The pieces parse exactly when every one is a character range; the
      first piece that is not one decides the fault: the index panic when
      one of its sides is empty, the invalid-range error otherwise. */
  lemma {:induction false} ParseCharRangesSpec(specs: seq<string>)
    ensures ParseCharRanges(specs).Ok? <==> forall k :: 0 <= k < |specs| ==> IsCharRange(specs[k])
    ensures forall k :: 0 <= k < |specs| && !IsCharRange(specs[k]) && (forall i :: 0 <= i < k ==> IsCharRange(specs[i])) ==>
      ParseCharRanges(specs) == Fail(if HasEmptySide(specs[k]) then Panic(IndexOutOfRange) else CharRangeInvalid)
    decreases |specs|
  {
    if |specs| > 0 {
      CharRangePieces(specs[0]);
      ParseCharRangesSpec(specs[1..]);
      if IsCharRange(specs[0]) {
        forall k | 0 < k < |specs| && !IsCharRange(specs[k]) && (forall i :: 0 <= i < k ==> IsCharRange(specs[i]))
          ensures ParseCharRanges(specs) == Fail(if HasEmptySide(specs[k]) then Panic(IndexOutOfRange) else CharRangeInvalid)
        {
          assert specs[1..][k - 1] == specs[k];
          assert forall i :: 0 <= i < k - 1 ==> specs[1..][i] == specs[i + 1];
        }
        assert forall k :: 1 <= k < |specs| ==> specs[1..][k - 1] == specs[k];
      }
    }
  }

  /** `a-z`, the range of the random placeholder `[r10;a-z]`, is the lower-case letters. */
  lemma LowerCaseRange()
    ensures ParseCharRanges(["a-z"]) == Ok([CharRange('a', 'z')])
  {
    assert IsCharRange(["a-z"][0]);
    ParseCharRangesSpec(["a-z"]);
    var cr := ParseCharRanges(["a-z"]).value[0];
    assert "a-z" == [cr.lo] + "-" + [cr.hi];
    assert cr == CharRange('a', 'z');
    assert |ParseCharRanges(["a-z"]).value| == 1;
    assert ParseCharRanges(["a-z"]).value == [cr];
  }

  /** `randomString`: `count` strings of `length` characters; character i of
      string j is `charlist[draw(pos + j*length + i) % len(charlist)]`.
      Go panics on a negative `make` length and on `% 0` when the character
      list is empty but characters are needed. */
  function RandomString(ranges: seq<CharRange>, length: int, count: int, draw: nat -> nat, pos: nat)
    : (r: Result<(seq<string>, nat)>)
    ensures r.Fail? <==>
      || count < 0
      || (count > 0 && (length < 0 || (length > 0 && |CharList(ranges)| == 0)))
    ensures r.Ok? ==> |r.value.0| == count
    ensures r.Ok? ==> forall j :: 0 <= j < count ==> |r.value.0[j]| == length
    ensures r.Ok? ==> forall j, i :: 0 <= j < count && 0 <= i < length ==> r.value.0[j][i] in CharList(ranges)
    ensures r.Ok? ==> r.value.1 == pos + (if count > 0 then count * length else 0)
    ensures count < 0 || (count > 0 && length < 0) ==> r == Fail(Panic(NegativeMakeLength))
    ensures count > 0 && length > 0 && |CharList(ranges)| == 0 ==> r == Fail(Panic(IntegerDivideByZero))
  {
    var charlist := CharList(ranges);
    if count < 0 then Fail(Panic(NegativeMakeLength))
    else if count == 0 then Ok(([], pos))
    else if length < 0 then Fail(Panic(NegativeMakeLength))
    else if length > 0 && |charlist| == 0 then Fail(Panic(IntegerDivideByZero))
    else
      var strs := seq(count, j requires 0 <= j < count =>
        seq(length, i requires 0 <= i < length => charlist[draw(pos + j * length + i) % |charlist|]));
      Ok((strs, pos + count * length))
  }

  // ---------------------------------------------------------------------
  // parseUrl

  /** One pass of `parseUrl`'s loop: expand placeholder `sub` (the text
      inside `[` `]`) in every URL generated so far. `result` is `None` while
      Go's `result` slice is still nil. */
  function ExpandOne(url: string, sub: string, count: int, result: Option<seq<string>>, draw: nat -> nat, pos: nat)
    : (r: Result<(seq<string>, nat)>)
    requires result.Some? ==> |result.value| == count
    ensures r.Ok? ==> |r.value.0| == count && r.value.1 >= pos
  {
    if |sub| == 0 then Fail(Panic(IndexOutOfRange))
    else if sub[0] == 'r' then ExpandRandom(url, sub, count, result, draw, pos)
    else ExpandRange(url, sub, count, result, pos)
  }

  /** The random branch: `[rLEN;x-y_...]` gets a fresh random string in
      every URL. */
  function ExpandRandom(url: string, sub: string, count: int, result: Option<seq<string>>, draw: nat -> nat, pos: nat)
    : (r: Result<(seq<string>, nat)>)
    requires |sub| > 0 && (result.Some? ==> |result.value| == count)
    ensures r.Ok? ==> |r.value.0| == count && r.value.1 >= pos
  {
    var rargs := Split(sub[1..], ';');
    if |rargs| != 2 then Fail(RandomArgCount(|rargs|))
    else
      match Atoi(rargs[0])
      case None => Fail(RandomLengthNotInteger)
      case Some(length) =>
        if count == 0 then Fail(RandomCountZero)
        else
          var ranges :- ParseCharRanges(Split(rargs[1], '_'));
          var drawn :- RandomString(ranges, length, count, draw, pos);
          var base := if result.Some? then result.value else Copies(url, count);
          Ok((Substituted(base, "[" + sub + "]", drawn.0), drawn.1))
  }

  /** The range branch: `[a-b]` becomes the decimal spelling of i + a in
      URL i. */
  function ExpandRange(url: string, sub: string, count: int, result: Option<seq<string>>, pos: nat)
    : (r: Result<(seq<string>, nat)>)
    requires result.Some? ==> |result.value| == count
    ensures r.Ok? ==> |r.value.0| == count && r.value.1 == pos
  {
    var mm :- GetMinMax(sub);
    var base :- if result.Some? then Ok(result.value)
                else if count < 0 then Fail(Panic(NegativeMakeLength))
                else Ok(Copies(url, count));
    Ok((Numbered(base, "[" + sub + "]", mm.0), pos))
  }

  /** `count` copies of the URL: the slice `parseUrl` starts from. */
  function Copies(url: string, count: nat): (r: seq<string>)
    ensures |r| == count && forall i :: 0 <= i < count ==> r[i] == url
  {
    seq(count, _ => url)
  }

  /** The range step of `parseUrl`: in URL i, the placeholder `full` is
      replaced by the decimal spelling of i + min. */
  function Numbered(base: seq<string>, full: string, lo: int): (r: seq<string>)
    requires |full| > 0
    ensures |r| == |base|
    ensures forall i :: 0 <= i < |base| ==> r[i] == ReplaceAll(base[i], full, Itoa(i + lo))
  {
    seq(|base|, i requires 0 <= i < |base| => ReplaceAll(base[i], full, Itoa(i + lo)))
  }

  /** The random step of `parseUrl`: in URL i, the placeholder `full` is
      replaced by the i-th random string. */
  function Substituted(base: seq<string>, full: string, reps: seq<string>): (r: seq<string>)
    requires |full| > 0 && |reps| == |base|
    ensures |r| == |base|
    ensures forall i :: 0 <= i < |base| ==> r[i] == ReplaceAll(base[i], full, reps[i])
  {
    seq(|base|, i requires 0 <= i < |base| => ReplaceAll(base[i], full, reps[i]))
  }

  /** The URLs `p + Itoa(lo) + s`, `p + Itoa(lo + 1) + s`, ... (`count` of them). */
  function Spelled(p: string, s: string, lo: int, count: nat): (r: seq<string>)
    ensures |r| == count && forall i :: 0 <= i < count ==> r[i] == p + Itoa(lo + i) + s
  {
    seq(count, i => p + Itoa(lo + i) + s)
  }

  /** `parseUrl`'s loop over all placeholders, in order. */
  function ExpandAll(url: string, subs: seq<string>, count: int, result: Option<seq<string>>, draw: nat -> nat, pos: nat)
    : (r: Result<(seq<string>, nat)>)
    requires result.Some? ==> |result.value| == count
    ensures r.Ok? && (|subs| > 0 || result.Some?) ==> |r.value.0| == count
    ensures r.Ok? ==> r.value.1 >= pos
    decreases |subs|
  {
    if |subs| == 0 then Ok((result.GetOr([]), pos))
    else
      var step :- ExpandOne(url, subs[0], count, result, draw, pos);
      ExpandAll(url, subs[1..], count, Some(step.0), draw, step.1)
  }

  /** `parseUrl`: expand every placeholder of the URL field. */
  function ParseUrl(url: string, draw: nat -> nat, pos: nat): Result<(seq<string>, nat)> {
    var subs := Placeholders(url);
    var field := UrlField(url);
    if |subs| == 0 then Ok(([field], pos))
    else
      var count :- GetCount(url);
      ExpandAll(field, subs, count, None, draw, pos)
  }

  /** A URL without placeholders stands for itself (the text before the
      first space); otherwise it expands into exactly as many URLs as
      `getCount` says, and randomness is only ever consumed. */
  lemma ParseUrlSpec(url: string, draw: nat -> nat, pos: nat)
    ensures !HasPlaceholder(url) ==> ParseUrl(url, draw, pos) == Ok(([UrlField(url)], pos))
    ensures ParseUrl(url, draw, pos).Ok? && HasPlaceholder(url) ==>
      GetCount(url) == Ok(|ParseUrl(url, draw, pos).value.0|)
    ensures ParseUrl(url, draw, pos).Ok? ==> ParseUrl(url, draw, pos).value.1 >= pos
  {
    PlaceholdersSpec(url);
  }

  // ---------------------------------------------------------------------
  // Scanning lemmas: where the two patterns match

  /** Text without `[` holds no match of either pattern. */
  lemma {:induction false} NoBracketNoMatch(s: string)
    requires '[' !in s
    ensures Placeholders(s) == [] && RangeSpecs(s) == []
    decreases |s|
  {
    if |s| > 0 {
      assert s[0] != '[';
      assert '[' !in s[1..];
      NoBracketNoMatch(s[1..]);
    }
  }

  /** Matches of either pattern never start inside a prefix without `[`. */
  lemma {:induction false} SkipPlainPrefix(p: string, t: string)
    requires '[' !in p
    ensures Placeholders(p + t) == Placeholders(t)
    ensures RangeSpecs(p + t) == RangeSpecs(t)
    decreases |p|
  {
    if |p| == 0 {
      assert p + t == t;
    } else {
      var s := p + t;
      assert s[0] == p[0] && s[1..] == p[1..] + t;
      assert s[0] != '[';
      assert '[' !in p[1..];
      SkipPlainPrefix(p[1..], t);
      assert RangeSpecLength(s) == 0;
    }
  }

  /** A bracketed text without `]` is the next placeholder. */
  lemma PlaceholdersAt(m: string, t: string)
    requires ']' !in m
    ensures Placeholders("[" + m + "]" + t) == [m] + Placeholders(t)
  {
    var s := "[" + m + "]" + t;
    assert s[1..] == m + "]" + t;
    assert s[1..][|m|] == ']';
    assert s[1..][..|m|] == m;
    IndexOfAt(s[1..], ']', |m|);
    assert s[1..1 + |m|] == m;
    assert s[|m| + 2..] == t;
  }

  /** A run of digits is read up to the first non-digit after it. */
  lemma {:induction false} LeadingDigitsOf(ds: string, t: string)
    requires AllDigits(ds) && (|t| == 0 || !IsDigit(t[0]))
    ensures LeadingDigits(ds + t) == |ds|
    decreases |ds|
  {
    if |ds| > 0 {
      assert (ds + t)[1..] == ds[1..] + t;
      LeadingDigitsOf(ds[1..], t);
    }
  }

  /** The text of a numeric range placeholder `[a-b]`. */
  function RangeText(a: nat, b: nat): string {
    Itoa(a) + "-" + Itoa(b)
  }

  /** `[da-db]` with non-empty digit runs is a match of the range pattern. */
  lemma RangeSpecLengthOfDigits(da: string, db: string, t: string)
    requires |da| > 0 && |db| > 0 && AllDigits(da) && AllDigits(db)
    ensures RangeSpecLength("[" + da + "-" + db + "]" + t) == 3 + |da| + |db|
  {
    var s := "[" + da + "-" + db + "]" + t;
    assert s[1..] == da + ("-" + db + "]" + t);
    LeadingDigitsOf(da, "-" + db + "]" + t);
    assert s[2 + |da|..] == db + ("]" + t);
    LeadingDigitsOf(db, "]" + t);
    assert s[1 + |da|] == '-' && s[2 + |da| + |db|] == ']';
  }

  /** The pieces of `[m]t`: what lies between the brackets, and after. */
  lemma BracketSlices(m: string, t: string)
    ensures ("[" + m + "]" + t)[1..|m| + 1] == m
    ensures ("[" + m + "]" + t)[|m| + 2..] == t
  {
  }

  /** `[da-db]` is the next numeric range. */
  lemma RangeSpecsAtDigits(da: string, db: string, t: string)
    requires |da| > 0 && |db| > 0 && AllDigits(da) && AllDigits(db)
    ensures RangeSpecs("[" + (da + "-" + db) + "]" + t) == [da + "-" + db] + RangeSpecs(t)
  {
    var m := da + "-" + db;
    var s := "[" + m + "]" + t;
    assert RangeSpecLength(s) == |m| + 2 by {
      assert s == "[" + da + "-" + db + "]" + t;
      RangeSpecLengthOfDigits(da, db, t);
    }
    RangeSpecsAtMatch(m, t);
  }

  /** A match `[m]` at the start is the next numeric range. */
  lemma RangeSpecsAtMatch(m: string, t: string)
    requires RangeSpecLength("[" + m + "]" + t) == |m| + 2
    ensures RangeSpecs("[" + m + "]" + t) == [m] + RangeSpecs(t)
  {
    BracketSlices(m, t);
    RangeSpecsStep("[" + m + "]" + t);
  }

  /** One step of the scan at a match. */
  lemma RangeSpecsStep(s: string)
    requires RangeSpecLength(s) > 0
    ensures RangeSpecs(s) == [s[1..RangeSpecLength(s) - 1]] + RangeSpecs(s[RangeSpecLength(s)..])
  {
  }

  /** `[a-b]` is the next numeric range. */
  lemma RangeSpecsAt(a: nat, b: nat, t: string)
    ensures RangeSpecs("[" + RangeText(a, b) + "]" + t) == [RangeText(a, b)] + RangeSpecs(t)
  {
    RangeSpecsAtDigits(Itoa(a), Itoa(b), t);
  }

  /** A `[` followed by a non-digit starts no numeric range. */
  lemma RangeSpecsSkipBracket(s: string)
    requires |s| >= 2 && s[0] == '[' && !IsDigit(s[1])
    ensures RangeSpecs(s) == RangeSpecs(s[1..])
  {
    assert LeadingDigits(s[1..]) == 0;
  }

  // ---------------------------------------------------------------------
  // Properties of parseUrl

  /** Without a placeholder the URL stands for itself, even with a count. */
  lemma ParseUrlPlain(url: string, count: nat, draw: nat -> nat, pos: nat)
    requires '[' !in url && ' ' !in url
    ensures ParseUrl(url, draw, pos) == Ok(([url], pos))
    ensures ParseUrl(url + " " + Itoa(count), draw, pos) == Ok(([url], pos))
  {
    NoBracketNoMatch(url);
    var full := url + " " + Itoa(count);
    DigitsAreNotDelimiters(Itoa(count));
    assert '[' !in full;
    NoBracketNoMatch(full);
    SplitN2At(url, ' ', Itoa(count));
    assert full == url + [' '] + Itoa(count);
  }

  /** Replacing the only placeholder of `p + full + s`. */
  lemma ReplaceOnly(p: string, full: string, rep: string, s: string)
    requires |full| > 0 && full[0] == '[' && '[' !in p && '[' !in s
    ensures ReplaceAll(p + full + s, full, rep) == p + rep + s
  {
    ReplaceAfterPrefix(p, full, rep, s);
    ReplaceAllAbsent(s, full, rep);
  }

  /** The only placeholder of `p[m]s`, when `p` and `s` hold no `[`. */
  lemma OnlyPlaceholder(p: string, m: string, s: string)
    requires '[' !in p && '[' !in s && ']' !in m
    ensures Placeholders(p + "[" + m + "]" + s) == [m]
  {
    Bracketed(p, m, s);
    SkipPlainPrefix(p, "[" + m + "]" + s);
    PlaceholdersAt(m, s);
    NoBracketNoMatch(s);
  }

  /** The only numeric range of `p[a-b]s`, when `p` and `s` hold no `[`. */
  lemma OnlyRange(p: string, s: string, a: nat, b: nat)
    requires '[' !in p && '[' !in s
    ensures RangeSpecs(p + "[" + RangeText(a, b) + "]" + s) == [RangeText(a, b)]
  {
    RangeSpecsAt(a, b, s);
    OnlyMatch(p, RangeText(a, b), s);
  }

  /** A numeric range `[m]` between texts without `[` is the only one. */
  lemma OnlyMatch(p: string, m: string, s: string)
    requires '[' !in p && '[' !in s
    requires RangeSpecs("[" + m + "]" + s) == [m] + RangeSpecs(s)
    ensures RangeSpecs(p + "[" + m + "]" + s) == [m]
  {
    Bracketed(p, m, s);
    SkipPlainPrefix(p, "[" + m + "]" + s);
    NoBracketNoMatch(s);
  }

  /** `p[m]s` read as `p` followed by `[m]s`. */
  lemma Bracketed(p: string, m: string, s: string)
    ensures p + "[" + m + "]" + s == p + ("[" + m + "]" + s)
  {
  }

  /** With exactly one numeric range, `getCount` gives its width. */
  lemma CountOfOneRange(url: string, m: string, lo: int, hi: int)
    requires RangeSpecs(url) == [m] && GetMinMax(m) == Ok((lo, hi))
    ensures GetCount(url) == Ok(hi - lo + 1)
  {
    assert [m][0] == m && [m][1..] == [];
    assert RangeWidths([m][1..]) == Ok([]);
    assert [hi - lo + 1] + [] == [hi - lo + 1];
    assert RangeWidths([m]) == Ok([hi - lo + 1]);
    assert [hi - lo + 1][1..] == [];
    assert CountOver([hi - lo + 1], 0) == CountOver([], hi - lo + 1);
  }

  /** A range placeholder met first: `count` copies of the URL, the i-th with
      the placeholder replaced by the decimal of i+min. */
  lemma FirstRangeStep(url: string, sub: string, lo: int, hi: int, count: nat, draw: nat -> nat, pos: nat)
    requires |sub| > 0 && sub[0] != 'r' && GetMinMax(sub) == Ok((lo, hi))
    ensures ExpandOne(url, sub, count, None, draw, pos) == Ok((Numbered(Copies(url, count), "[" + sub + "]", lo), pos))
  {
  }

  /** `parseUrl` of a URL with one placeholder is the one expansion step. */
  lemma ParseUrlOnePlaceholder(url: string, m: string, count: int, draw: nat -> nat, pos: nat)
    requires Placeholders(url) == [m] && GetCount(url) == Ok(count)
    ensures ParseUrl(url, draw, pos) == ExpandOne(UrlField(url), m, count, None, draw, pos)
  {
    var field := UrlField(url);
    match ExpandOne(field, m, count, None, draw, pos)
    case Fail(_) =>
    case Ok(step) =>
      assert [m][1..] == [];
      assert ExpandAll(field, [m][1..], count, Some(step.0), draw, step.1) == Ok((step.0, step.1));
  }

  /** Replacing the only placeholder of `p + full + s` by successive numbers. */
  lemma ReplaceEach(p: string, full: string, s: string, lo: int, count: nat)
    requires |full| > 0 && full[0] == '[' && '[' !in p && '[' !in s
    ensures Numbered(Copies(p + full + s, count), full, lo) == Spelled(p, s, lo, count)
  {
    var xs := Numbered(Copies(p + full + s, count), full, lo);
    var ys := Spelled(p, s, lo, count);
    forall i | 0 <= i < count
      ensures xs[i] == ys[i]
    {
      ReplaceOnly(p, full, Itoa(i + lo), s);
    }
  }

  /** `getCount` of `p[a-b]s` is the width of the range. */
  lemma OneRangeCount(p: string, s: string, a: nat, b: nat)
    requires '[' !in p && '[' !in s
    requires a <= b <= MaxInt64
    ensures GetCount(p + "[" + RangeText(a, b) + "]" + s) == Ok(b - a + 1)
  {
    OnlyRange(p, s, a, b);
    GetMinMaxRoundTrip(a, b);
    CountOfOneRange(p + "[" + RangeText(a, b) + "]" + s, RangeText(a, b), a, b);
  }

  /** The text of a range holds none of the characters that end a
      placeholder or a URL, and does not start like a random placeholder. */
  lemma RangeTextShape(a: nat, b: nat)
    ensures var m := RangeText(a, b); ']' !in m && ' ' !in m && |m| > 0 && m[0] != 'r'
  {
    DigitsAreNotDelimiters(Itoa(a));
    DigitsAreNotDelimiters(Itoa(b));
    assert RangeText(a, b)[0] == Itoa(a)[0];
  }

  /** Without a space, the whole text is the URL. */
  lemma NoSpaceField(url: string)
    requires ' ' !in url
    ensures UrlField(url) == url
  {
  }

  /** The one numeric range of a URL starts with a digit, so it is not read
      as a random placeholder. */
  lemma OnlyRangeStartsWithDigit(url: string, m: string)
    requires RangeSpecs(url) == [m]
    ensures |m| > 0 && IsDigit(m[0])
  {
    RangeSpecsAreDigitRanges(url);
    assert IsDigitRange(RangeSpecs(url)[0]);
    LeadingDigitsRun(m);
  }

  /** A URL whose only placeholder `[m]` is a numeric range `lo-hi` expands
      into `count` copies of the URL (`count` as `getCount` gives it); in copy
      i the placeholder is replaced by the decimal spelling of lo+i. */
  lemma ParseUrlOneRange(url: string, m: string, lo: int, hi: int, count: nat, draw: nat -> nat, pos: nat)
    requires Placeholders(url) == [m]
    requires GetCount(url) == Ok(count)
    requires |m| > 0
    requires m[0] != 'r'
    requires GetMinMax(m) == Ok((lo, hi))
    ensures ParseUrl(url, draw, pos) == Ok((Numbered(Copies(UrlField(url), count), "[" + m + "]", lo), pos))
  {
    ParseUrlOnePlaceholder(url, m, count, draw, pos);
    FirstRangeStep(UrlField(url), m, lo, hi, count, draw, pos);
  }

  /** A URL whose only placeholder `[m]` is a numeric range, and whose text
      before the first space is `p[m]s` with no `[` in `p` or `s`, expands
      into the URLs `p + Itoa(lo + i) + s` for i below the count. */
  lemma ParseUrlTemplate(url: string, m: string, p: string, s: string, lo: int, hi: int, count: nat,
                         draw: nat -> nat, pos: nat)
    requires Placeholders(url) == [m] && GetCount(url) == Ok(count)
    requires |m| > 0 && m[0] != 'r' && GetMinMax(m) == Ok((lo, hi))
    requires UrlField(url) == p + ("[" + m + "]") + s && '[' !in p && '[' !in s
    ensures ParseUrl(url, draw, pos) == Ok((Spelled(p, s, lo, count), pos))
  {
    ParseUrlOneRange(url, m, lo, hi, count, draw, pos);
    ReplaceEach(p, "[" + m + "]", s, lo, count);
  }

  /** Without a space, the whole of `p[m]s` is the URL. */
  lemma TemplateField(p: string, m: string, s: string)
    requires ' ' !in p + "[" + m + "]" + s
    ensures UrlField(p + "[" + m + "]" + s) == p + ("[" + m + "]") + s
  {
    NoSpaceField(p + "[" + m + "]" + s);
    assert p + "[" + m + "]" + s == p + ("[" + m + "]") + s;
  }

  /** The template `p[a-b]s`, where `p` and `s` hold no `[` and no space:
      its one placeholder is its one numeric range, which parses back to
      (a, b) and is not read as a random placeholder; the count is b - a + 1
      and the whole text is the URL. With `ParseUrlTemplate` it expands to
      `p + Itoa(a + i) + s` for i from 0 to b - a. */
  lemma RangeTemplate(p: string, s: string, a: nat, b: nat)
    requires '[' !in p && '[' !in s && ' ' !in p && ' ' !in s
    requires a <= b <= MaxInt64
    ensures var m := RangeText(a, b); var url := p + "[" + m + "]" + s;
      && Placeholders(url) == [m] && RangeSpecs(url) == [m]
      && |m| > 0 && m[0] != 'r' && GetMinMax(m) == Ok((a, b))
      && GetCount(url) == Ok(b - a + 1)
      && UrlField(url) == p + ("[" + m + "]") + s
  {
    RangeTextShape(a, b);
    OnlyPlaceholder(p, RangeText(a, b), s);
    OnlyRange(p, s, a, b);
    GetMinMaxRoundTrip(a, b);
    OneRangeCount(p, s, a, b);
    TemplateField(p, RangeText(a, b), s);
  }

  /** The text before the first space of `p[m]s t`, when `p[m]s` has no space. */
  lemma FieldBeforeCount(p: string, m: string, s: string, t: string)
    requires ' ' !in p + "[" + m + "]" + s
    ensures UrlField(p + "[" + m + "]" + (s + " " + t)) == p + ("[" + m + "]") + s
  {
    assert p + "[" + m + "]" + (s + " " + t) == (p + "[" + m + "]" + s) + [' '] + t;
    SplitN2At(p + "[" + m + "]" + s, ' ', t);
    assert p + "[" + m + "]" + s == p + ("[" + m + "]") + s;
  }

  /** The template `p[a-b]s` followed by a space and a count `n`: the
      placeholder, the range and the count are those of `p[a-b]s` (the range
      wins over the explicit count), and the URL is `p[a-b]s` without the
      count. */
  lemma RangeTemplateCounted(p: string, s: string, a: nat, b: nat, n: nat)
    requires '[' !in p && '[' !in s && ' ' !in p && ' ' !in s
    requires a <= b <= MaxInt64
    ensures var m := RangeText(a, b); var url := p + "[" + m + "]" + (s + " " + Itoa(n));
      && Placeholders(url) == [m] && GetCount(url) == Ok(b - a + 1)
      && UrlField(url) == p + ("[" + m + "]") + s
  {
    RangeTextShape(a, b);
    DigitsAreNotDelimiters(Itoa(n));
    OnlyPlaceholder(p, RangeText(a, b), s + " " + Itoa(n));
    OneRangeCount(p, s + " " + Itoa(n), a, b);
    FieldBeforeCount(p, RangeText(a, b), s, Itoa(n));
  }

  /** A later numeric range numbers the URLs built so far, again from its own minimum. */
  lemma LaterRangeStep(url: string, sub: string, lo: int, hi: int, base: seq<string>, draw: nat -> nat, pos: nat)
    requires |sub| > 0 && sub[0] != 'r' && GetMinMax(sub) == Ok((lo, hi))
    ensures ExpandOne(url, sub, |base|, Some(base), draw, pos) == Ok((Numbered(base, "[" + sub + "]", lo), pos))
  {
  }

  /** Expanding two placeholders is the two expansion steps in turn. */
  lemma ExpandAllTwo(url: string, m1: string, m2: string, count: int, draw: nat -> nat, pos: nat,
                     first: seq<string>, mid: nat, second: seq<string>, end: nat)
    requires ExpandOne(url, m1, count, None, draw, pos) == Ok((first, mid))
    requires |first| == count && ExpandOne(url, m2, count, Some(first), draw, mid) == Ok((second, end))
    ensures ExpandAll(url, [m1, m2], count, None, draw, pos) == Ok((second, end))
  {
    assert [m1, m2][1..] == [m2] && [m2][1..] == [];
    assert ExpandAll(url, [m2][1..], count, Some(second), draw, end) == Ok((second, end));
  }

  /** Two numeric ranges are not combined as a Cartesian product: copy i
      gets lo1+i in the first and lo2+i in the second placeholder. When both
      are numeric ranges of `getCount`, the count is the product of their
      widths, so as soon as the second range holds more than one value the
      copy just past the first range's width carries hi1 + 1, a number
      outside that range. */
  lemma ParseUrlTwoRanges(url: string, m1: string, m2: string, lo1: int, hi1: int, lo2: int, hi2: int,
                          count: nat, draw: nat -> nat, pos: nat)
    requires Placeholders(url) == [m1, m2] && GetCount(url) == Ok(count)
    requires |m1| > 0 && m1[0] != 'r' && GetMinMax(m1) == Ok((lo1, hi1))
    requires |m2| > 0 && m2[0] != 'r' && GetMinMax(m2) == Ok((lo2, hi2))
    ensures ParseUrl(url, draw, pos)
      == Ok((Numbered(Numbered(Copies(UrlField(url), count), "[" + m1 + "]", lo1), "[" + m2 + "]", lo2), pos))
    ensures RangeSpecs(url) == [m1, m2] ==> count == Width(lo1, hi1) * Width(lo2, hi2)
    ensures RangeSpecs(url) == [m1, m2] && hi2 > lo2 ==> Width(lo1, hi1) < count
    ensures Width(lo1, hi1) < count ==>
      ParseUrl(url, draw, pos).value.0[Width(lo1, hi1)]
      == ReplaceAll(ReplaceAll(UrlField(url), "[" + m1 + "]", Itoa(hi1 + 1)), "[" + m2 + "]", Itoa(lo2 + Width(lo1, hi1)))
  {
    var field := UrlField(url);
    var first := Numbered(Copies(field, count), "[" + m1 + "]", lo1);
    assert ParseUrl(url, draw, pos) == Ok((Numbered(first, "[" + m2 + "]", lo2), pos)) by {
      FirstRangeStep(field, m1, lo1, hi1, count, draw, pos);
      LaterRangeStep(field, m2, lo2, hi2, first, draw, pos);
      ExpandAllTwo(field, m1, m2, count, draw, pos, first, pos, Numbered(first, "[" + m2 + "]", lo2), pos);
    }
    if RangeSpecs(url) == [m1, m2] {
      TwoRangesCount(url, m1, m2, lo1, hi1, lo2, hi2, count);
    }
    if Width(lo1, hi1) < count {
      NumberedPastWidth(field, "[" + m1 + "]", "[" + m2 + "]", lo1, hi1, lo2, count);
    }
  }

  /** With two numeric ranges the count is the product of the widths, and
      it exceeds the first width when the second range holds more than one
      value. */
  lemma TwoRangesCount(url: string, m1: string, m2: string, lo1: int, hi1: int, lo2: int, hi2: int, count: int)
    requires RangeSpecs(url) == [m1, m2] && GetCount(url) == Ok(count)
    requires GetMinMax(m1) == Ok((lo1, hi1)) && GetMinMax(m2) == Ok((lo2, hi2))
    ensures count == Width(lo1, hi1) * Width(lo2, hi2)
    ensures hi2 > lo2 ==> Width(lo1, hi1) < count
  {
    WidthsOfTwo(m1, m2, lo1, hi1, lo2, hi2);
    TwoWidthsCount(url, [m1, m2], Width(lo1, hi1), Width(lo2, hi2), count);
  }

  /** The count of two widths is their product, and exceeds the first when
      the second is above one. */
  lemma TwoWidthsCount(url: string, specs: seq<string>, w1: int, w2: int, count: int)
    requires RangeSpecs(url) == specs && |specs| > 0 && RangeWidths(specs) == Ok([w1, w2])
    requires GetCount(url) == Ok(count)
    ensures count == w1 * w2
    ensures w2 >= 2 ==> w1 < count
  {
    assert [w1, w2][0] >= 1;
    CountOfTwoWidths(url, specs, w1, w2);
    if w2 >= 2 {
      WiderThanFirst(w1, w2);
    }
  }

  /** The copy just past the first range's width, after both numbering steps. */
  lemma NumberedPastWidth(url: string, f1: string, f2: string, lo1: int, hi1: int, lo2: int, count: nat)
    requires |f1| > 0 && |f2| > 0 && lo1 <= hi1 && hi1 - lo1 + 1 < count
    ensures Numbered(Numbered(Copies(url, count), f1, lo1), f2, lo2)[hi1 - lo1 + 1]
         == ReplaceAll(ReplaceAll(url, f1, Itoa(hi1 + 1)), f2, Itoa(lo2 + (hi1 - lo1 + 1)))
  {
    NumberedTwiceAt(url, f1, f2, lo1, lo2, count, hi1 - lo1 + 1);
    assert hi1 - lo1 + 1 + lo1 == hi1 + 1;
    assert hi1 - lo1 + 1 + lo2 == lo2 + (hi1 - lo1 + 1);
  }

  /** Two widths give the count of their product. */
  lemma CountOfTwoWidths(url: string, specs: seq<string>, w1: int, w2: int)
    requires RangeSpecs(url) == specs && |specs| > 0 && RangeWidths(specs) == Ok([w1, w2]) && w1 >= 1
    ensures GetCount(url) == Ok(w1 * w2)
  {
    CountOfWidths(url, specs, [w1, w2]);
    CountOverTwo(w1, w2);
  }

  /** With numeric ranges present, the count is the count loop over their widths. */
  lemma CountOfWidths(url: string, specs: seq<string>, ws: seq<int>)
    requires RangeSpecs(url) == specs && |specs| > 0 && RangeWidths(specs) == Ok(ws)
    ensures GetCount(url) == Ok(CountOver(ws, 0))
  {
  }

  /** The count loop over two widths. */
  lemma CountOverTwo(w1: int, w2: int)
    requires w1 >= 1
    ensures CountOver([w1, w2], 0) == w1 * w2
  {
    assert [w1, w2][1..] == [w2] && [w2][1..] == [];
    assert CountOver([w1, w2], 0) == CountOver([w2], w1);
    assert CountOver([w2], w1) == CountOver([], w1 * w2);
  }

  /** The widths of two ranges that parse. */
  lemma WidthsOfTwo(m1: string, m2: string, lo1: int, hi1: int, lo2: int, hi2: int)
    requires GetMinMax(m1) == Ok((lo1, hi1)) && GetMinMax(m2) == Ok((lo2, hi2))
    ensures RangeWidths([m1, m2]) == Ok([Width(lo1, hi1), Width(lo2, hi2)])
  {
    WidthsCons(m2, [], lo2, hi2, []);
    assert [m2] + [] == [m2];
    WidthsCons(m1, [m2], lo1, hi1, [hi2 - lo2 + 1] + []);
    assert [m1] + [m2] == [m1, m2];
    assert [hi1 - lo1 + 1] + ([hi2 - lo2 + 1] + []) == [hi1 - lo1 + 1, hi2 - lo2 + 1];
  }

  /** The widths of a range that parses followed by more ranges. */
  lemma WidthsCons(m: string, rest: seq<string>, lo: int, hi: int, ws: seq<int>)
    requires GetMinMax(m) == Ok((lo, hi)) && RangeWidths(rest) == Ok(ws)
    ensures RangeWidths([m] + rest) == Ok([hi - lo + 1] + ws)
  {
    assert ([m] + rest)[0] == m && ([m] + rest)[1..] == rest;
  }

  /** A product with a second factor above one exceeds the first factor. */
  lemma WiderThanFirst(w1: int, w2: int)
    requires w1 >= 1 && w2 >= 2
    ensures w1 < w1 * w2
  {
    ProductGrows(w2 - 1, w1);
    assert w1 * w2 == (w2 - 1) * w1 + w1;
  }

  /** URL i after two numbering steps has both placeholders replaced, by
      the decimals of lo1 + i and lo2 + i. */
  lemma NumberedTwiceAt(url: string, f1: string, f2: string, lo1: int, lo2: int, count: nat, i: nat)
    requires |f1| > 0 && |f2| > 0 && i < count
    ensures Numbered(Numbered(Copies(url, count), f1, lo1), f2, lo2)[i]
         == ReplaceAll(ReplaceAll(url, f1, Itoa(i + lo1)), f2, Itoa(i + lo2))
  {
  }

  /** A URL whose only placeholder is a random one `[rLEN;ranges]` expands
      into `count` copies; copy i has the placeholder replaced by the i-th
      string `randomString` draws, LEN characters from the ranges. */
  lemma ParseUrlOneRandom(url: string, sub: string, lenText: string, rangesText: string,
                          len: int, ranges: seq<CharRange>, count: nat, draw: nat -> nat, pos: nat)
    requires Placeholders(url) == [sub] && GetCount(url) == Ok(count) && count > 0
    requires |sub| > 0 && sub[0] == 'r' && Split(sub[1..], ';') == [lenText, rangesText]
    requires Atoi(lenText) == Some(len) && ParseCharRanges(Split(rangesText, '_')) == Ok(ranges)
    requires RandomString(ranges, len, count, draw, pos).Ok?
    ensures var drawn := RandomString(ranges, len, count, draw, pos).value;
      ParseUrl(url, draw, pos) == Ok((Substituted(Copies(UrlField(url), count), "[" + sub + "]", drawn.0), drawn.1))
  {
    var drawn := RandomString(ranges, len, count, draw, pos).value;
    var field := UrlField(url);
    assert ExpandOne(field, sub, count, None, draw, pos)
      == Ok((Substituted(Copies(field, count), "[" + sub + "]", drawn.0), drawn.1));
    ParseUrlOnePlaceholder(url, sub, count, draw, pos);
  }

  /** An empty placeholder `[]` met first has no character to look at: Go's
      `submatch[0]` panics. */
  lemma ParseUrlEmptyPlaceholder(url: string, draw: nat -> nat, pos: nat)
    requires |Placeholders(url)| > 0 && Placeholders(url)[0] == "" && GetCount(url).Ok?
    ensures ParseUrl(url, draw, pos) == Fail(Panic(IndexOutOfRange))
  {
  }
}
