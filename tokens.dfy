/**
 * Splitting an index line into fields and reading the numbers in them.
 *
 * The index reader splits each line with strtok on the delimiter set
 * "\t\r\n": leading and repeated delimiters are skipped and a token is a
 * maximal run of other characters (a space is NOT a delimiter). NextToken is
 * one such strtok call; Words is an independent reference split, and
 * NextTokenWords ties the two together. Numbers are read with atoi.
 */
module Tokens {
  import opened Wrappers

  /** The delimiters the index reader hands to strtok: tab, CR and LF. */
  predicate IsDelim(c: char) {
    c == '\t' || c == '\r' || c == '\n'
  }

  predicate NoDelims(s: string) {
    forall i :: 0 <= i < |s| ==> !IsDelim(s[i])
  }

  predicate AllDelims(s: string) {
    forall i :: 0 <= i < |s| ==> IsDelim(s[i])
  }

  /** Length of the run of non-delimiters at the front of `s`. */
  function RunLength(s: string): (n: nat)
    ensures n <= |s|
    ensures NoDelims(s[..n])
    ensures n < |s| ==> IsDelim(s[n])
  {
    if s == [] || IsDelim(s[0]) then 0
    else
      var m := RunLength(s[1..]);
      assert s[..m + 1] == [s[0]] + s[1..][..m];
      1 + m
  }

  /** A token and the text strtok resumes from on its next call. */
  datatype Token = Token(text: string, rest: string)

  /**
   * One strtok call on `s`: skip the leading delimiters; the token is the
   * following run of non-delimiters; strtok overwrites the delimiter that
   * ends it, so the next call resumes just past that delimiter. None when
   * nothing but delimiters is left.
   */
  function NextToken(s: string): (r: Option<Token>)
    ensures r.None? <==> AllDelims(s)
    ensures r.Some? ==> r.value.text != [] && NoDelims(r.value.text)
    ensures r.Some? ==> |r.value.text| + |r.value.rest| <= |s|
  {
    if s == [] then None
    else if IsDelim(s[0]) then
      var r := NextToken(s[1..]);
      assert AllDelims(s[1..]) ==> AllDelims(s);
      r
    else
      var n := RunLength(s);
      Some(Token(s[..n], if n < |s| then s[n + 1..] else []))
  }

  /**
   * Reference split: the pieces of `s` between consecutive delimiters,
   * empty pieces included, so that a string with k delimiters has k + 1
   * fields.
   */
  function Fields(s: string): (fs: seq<string>)
    ensures |fs| >= 1
  {
    if s == [] then [[]]
    else
      var f := Fields(s[1..]);
      if IsDelim(s[0]) then [[]] + f else [[s[0]] + f[0]] + f[1..]
  }

  /** The non-empty members of `fs`, in order. */
  function NonEmpty(fs: seq<string>): (ws: seq<string>)
    ensures forall i :: 0 <= i < |ws| ==> ws[i] != []
    ensures |ws| <= |fs|
  {
    if fs == [] then []
    else (if fs[0] == [] then [] else [fs[0]]) + NonEmpty(fs[1..])
  }

  /** The tokens of `s`: its non-empty fields. */
  function Words(s: string): seq<string> {
    NonEmpty(Fields(s))
  }

  lemma {:induction false} NonEmptyAppend(a: seq<string>, b: seq<string>)
    ensures NonEmpty(a + b) == NonEmpty(a) + NonEmpty(b)
  {
    if a != [] {
      assert (a + b)[1..] == a[1..] + b;
      NonEmptyAppend(a[1..], b);
    } else {
      assert a + b == b;
    }
  }

  /** The first field of `s` is the run in front of the first delimiter. */
  lemma {:induction false} FieldsOfRun(s: string)
    ensures Fields(s) == [s[..RunLength(s)]] +
              (if RunLength(s) < |s| then Fields(s[RunLength(s) + 1..]) else [])
  {
    if s != [] && !IsDelim(s[0]) {
      var t := s[1..];
      var m := RunLength(t);
      FieldsOfRun(t);
      assert [s[0]] + t[..m] == s[..m + 1];
      if m < |t| {
        assert t[m + 1..] == s[m + 2..];
      }
    }
  }

  /**
   * One strtok call yields exactly the first token of the reference split,
   * and the text it resumes from holds the remaining tokens.
   */
  lemma {:induction false} NextTokenWords(s: string)
    ensures NextToken(s).None? ==> Words(s) == []
    ensures NextToken(s).Some? ==> Words(s) == [NextToken(s).value.text] + Words(NextToken(s).value.rest)
  {
    if s == [] {
    } else if IsDelim(s[0]) {
      NextTokenWords(s[1..]);
      assert Fields(s) == [[]] + Fields(s[1..]);
      NonEmptyAppend([[]], Fields(s[1..]));
    } else {
      var n := RunLength(s);
      FieldsOfRun(s);
      var tail := if n < |s| then Fields(s[n + 1..]) else [];
      NonEmptyAppend([s[..n]], tail);
      if n == |s| {
        assert Words([]) == [];
      }
    }
  }

  /** Three successive strtok calls, as the index reader makes them. */
  function FirstThree(line: string): (r: Option<(string, string, string)>)
    ensures r.Some? ==> r.value.0 != [] && NoDelims(r.value.0)
    ensures r.Some? ==> r.value.1 != [] && NoDelims(r.value.1)
    ensures r.Some? ==> r.value.2 != [] && NoDelims(r.value.2)
  {
    match NextToken(line)
    case None => None
    case Some(t1) =>
      match NextToken(t1.rest)
      case None => None
      case Some(t2) =>
        match NextToken(t2.rest)
        case None => None
        case Some(t3) => Some((t1.text, t2.text, t3.text))
  }

  /**
   * The three strtok calls succeed exactly when the line has at least three
   * tokens, and then return the first three; any further tokens are ignored.
   */
  lemma FirstThreeWords(line: string)
    ensures FirstThree(line).Some? <==> |Words(line)| >= 3
    ensures FirstThree(line).Some? ==>
              FirstThree(line).value == (Words(line)[0], Words(line)[1], Words(line)[2])
  {
    NextTokenWords(line);
    if NextToken(line).Some? {
      var r1 := NextToken(line).value.rest;
      NextTokenWords(r1);
      if NextToken(r1).Some? {
        NextTokenWords(NextToken(r1).value.rest);
      }
    }
  }

  // ---------------------------------------------------------------------
  // atoi

  predicate IsDigit(c: char) {
    '0' <= c <= '9'
  }

  predicate AllDigits(s: string) {
    forall i :: 0 <= i < |s| ==> IsDigit(s[i])
  }

  /** The white space atoi skips before the digits (tab, CR and LF never occur inside a token). */
  predicate IsSpace(c: char) {
    c == ' ' || c == '\t' || c == '\n' || c == '\U{B}' || c == '\U{C}' || c == '\r'
  }

  function DigitValue(c: char): (d: nat)
    requires IsDigit(c)
    ensures d < 10
  {
    (c as int) - ('0' as int)
  }

  function DigitChar(d: nat): (c: char)
    requires d < 10
    ensures IsDigit(c) && DigitValue(c) == d
  {
    (('0' as int) + d) as char
  }

  /** Length of the run of digits at the front of `s`. */
  function DigitRun(s: string): (n: nat)
    ensures n <= |s| && AllDigits(s[..n])
    ensures n < |s| ==> !IsDigit(s[n])
  {
    if s == [] || !IsDigit(s[0]) then 0
    else
      var m := DigitRun(s[1..]);
      assert s[..m + 1] == [s[0]] + s[1..][..m];
      1 + m
  }

  /** The number a string of decimal digits denotes, most significant first. */
  function DecimalValue(ds: string): nat
    requires AllDigits(ds)
  {
    if ds == [] then 0
    else DecimalValue(ds[..|ds| - 1]) * 10 + DigitValue(ds[|ds| - 1])
  }

  /**
   * atoi on a token: leading white space is skipped, then the longest run of
   * decimal digits is read; no digits gives 0.
   */
  function Atoi(s: string): (n: nat)
    ensures s == [] ==> n == 0
    ensures s != [] && !IsSpace(s[0]) && !IsDigit(s[0]) ==> n == 0
  {
    if s != [] && IsSpace(s[0]) then Atoi(s[1..])
    else DecimalValue(s[..DigitRun(s)])
  }

  /** The decimal rendering of `n`, without leading zeros. */
  function Decimal(n: nat): (s: string)
    ensures s != [] && AllDigits(s)
    ensures n > 0 ==> s[0] != '0'
  {
    if n < 10 then [DigitChar(n)]
    else Decimal(n / 10) + [DigitChar(n % 10)]
  }

  /** Reading back a decimal rendering gives the number. */
  lemma {:induction false} DecimalValueOfDecimal(n: nat)
    ensures DecimalValue(Decimal(n)) == n
  {
    if n >= 10 {
      var s := Decimal(n);
      assert s[..|s| - 1] == Decimal(n / 10);
      DecimalValueOfDecimal(n / 10);
    }
  }

  /**
   * atoi reads a number written in decimal back exactly, whatever follows
   * it as long as that does not start with a digit.
   */
  lemma AtoiDecimal(n: nat, tail: string)
    requires tail == [] || !IsDigit(tail[0])
    ensures Atoi(Decimal(n) + tail) == n
  {
    var d := Decimal(n);
    var s := d + tail;
    assert !IsSpace(s[0]);
    DigitRunPrefix(d, tail);
    assert s[..|d|] == d;
    DecimalValueOfDecimal(n);
  }

  lemma {:induction false} DigitRunPrefix(d: string, tail: string)
    requires AllDigits(d)
    requires tail == [] || !IsDigit(tail[0])
    ensures DigitRun(d + tail) == |d|
  {
    if d != [] {
      assert (d + tail)[1..] == d[1..] + tail;
      DigitRunPrefix(d[1..], tail);
    } else {
      assert d + tail == tail;
    }
  }
}
