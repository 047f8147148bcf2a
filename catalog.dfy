/**
 * The index catalog: the symbol -> (start, length) table that CVoice::open
 * builds from the lines of the index file.
 *
 * A line contributes an entry only when strtok finds at least three tokens
 * in it: the symbol, the start byte offset and the length in frames (both
 * read with atoi). Lines are applied in file order, so a later line for the
 * same symbol overwrites an earlier one.
 */
module Catalog {
  import opened Wrappers
  import opened Tokens

  /** CPositions: a start byte offset into the audio blob and a length in frames. */
  datatype Position = Position(start: nat, length: nat)

  /** One parsed index line. */
  datatype Entry = Entry(symbol: string, position: Position)

  type Positions = map<string, Position>

  /** The entry an index line yields, if its three strtok calls all find a token. */
  function ParseLine(line: string): (r: Option<Entry>)
    ensures r.Some? ==> WellFormedSymbol(r.value.symbol)
  {
    match FirstThree(line)
    case None => None
    case Some((symbol, start, length)) => Some(Entry(symbol, Position(Atoi(start), Atoi(length))))
  }

  /**
   * A line yields an entry exactly when it has at least three tab/CR/LF
   * separated tokens; the entry is built from the first three and the rest
   * are ignored.
   */
  lemma ParseLineWords(line: string)
    ensures ParseLine(line).Some? <==> |Words(line)| >= 3
    ensures ParseLine(line).Some? ==>
              var w := Words(line);
              ParseLine(line).value == Entry(w[0], Position(Atoi(w[1]), Atoi(w[2])))
  {
    FirstThreeWords(line);
  }

  /** The catalog after the reader has handled one more line. */
  function Insert(positions: Positions, line: string): (r: Positions)
    ensures forall s :: s in positions ==> s in r
    ensures forall s :: Defines(line, s) ==> s in r && r[s] == ParseLine(line).value.position
    ensures forall s :: !Defines(line, s) ==> (s in r <==> s in positions)
    ensures forall s :: !Defines(line, s) && s in positions ==> r[s] == positions[s]
  {
    match ParseLine(line)
    case None => positions
    case Some(e) => positions[e.symbol := e.position]
  }

  /** The catalog after the reader has handled `lines` in order. */
  function Load(positions: Positions, lines: seq<string>): (r: Positions)
    ensures forall s :: s in positions ==> s in r
  {
    if lines == [] then positions
    else Insert(Load(positions, lines[..|lines| - 1]), lines[|lines| - 1])
  }

  /** Loading a single line is inserting it. */
  lemma LoadOne(positions: Positions, line: string)
    ensures Load(positions, [line]) == Insert(positions, line)
  {
    assert [line][..0] == [];
  }

  /** Whether `line` yields an entry for `symbol`. */
  predicate Defines(line: string, symbol: string) {
    ParseLine(line).Some? && ParseLine(line).value.symbol == symbol
  }

  /** The catalog's lookup: m_positions.count / m_positions.at. */
  function Resolve(positions: Positions, symbol: string): (r: Option<Position>)
    ensures r.Some? <==> symbol in positions
    ensures r.Some? ==> r.value == positions[symbol]
  {
    if symbol in positions then Some(positions[symbol]) else None
  }

  /** Last write wins: a symbol resolves to the position on the last line that defines it. */
  lemma {:induction false} LoadLatest(positions: Positions, lines: seq<string>, i: nat, symbol: string)
    requires i < |lines| && Defines(lines[i], symbol)
    requires forall j :: i < j < |lines| ==> !Defines(lines[j], symbol)
    ensures symbol in Load(positions, lines)
    ensures Load(positions, lines)[symbol] == ParseLine(lines[i]).value.position
  {
    var init := lines[..|lines| - 1];
    if i < |lines| - 1 {
      forall j | i < j < |init| ensures !Defines(init[j], symbol) {
        assert init[j] == lines[j];
      }
      LoadLatest(positions, init, i, symbol);
    }
  }

  /** Every symbol in the loaded catalog was there before or is defined by some line. */
  lemma {:induction false} LoadOnlyDefined(positions: Positions, lines: seq<string>, symbol: string)
    requires symbol in Load(positions, lines)
    ensures symbol in positions || exists i :: 0 <= i < |lines| && Defines(lines[i], symbol)
  {
    if lines != [] {
      var init := lines[..|lines| - 1];
      if Defines(lines[|lines| - 1], symbol) {
        assert Defines(lines[|lines| - 1], symbol);
      } else {
        LoadOnlyDefined(positions, init, symbol);
        if symbol !in positions {
          var i :| 0 <= i < |init| && Defines(init[i], symbol);
          assert lines[i] == init[i];
        }
      }
    }
  }

  /** A symbol no line defines keeps the position (or absence) it had before. */
  lemma {:induction false} LoadUntouched(positions: Positions, lines: seq<string>, symbol: string)
    requires forall i :: 0 <= i < |lines| ==> !Defines(lines[i], symbol)
    ensures symbol in Load(positions, lines) <==> symbol in positions
    ensures symbol in positions ==> Load(positions, lines)[symbol] == positions[symbol]
  {
    if lines != [] {
      var init := lines[..|lines| - 1];
      forall j | 0 <= j < |init| ensures !Defines(init[j], symbol) {
        assert init[j] == lines[j];
      }
      LoadUntouched(positions, init, symbol);
    }
  }

  /** A symbol the index can hold: non-empty and free of tab, CR and LF. */
  predicate WellFormedSymbol(symbol: string) {
    symbol != [] && NoDelims(symbol)
  }

  /** The index line that records `e`: symbol, start and length separated by tabs. */
  function FormatLine(e: Entry): string {
    e.symbol + "\t" + Decimal(e.position.start) + "\t" + Decimal(e.position.length) + "\n"
  }

  lemma {:induction false} NextTokenOfField(t: string, d: char, rest: string)
    requires t != [] && NoDelims(t) && IsDelim(d)
    ensures NextToken(t + [d] + rest) == Some(Token(t, rest))
  {
    var s := t + [d] + rest;
    RunLengthOfField(t, d, rest);
    assert s[..|t|] == t;
    assert s[|t| + 1..] == rest;
  }

  lemma {:induction false} RunLengthOfField(t: string, d: char, rest: string)
    requires NoDelims(t) && IsDelim(d)
    ensures RunLength(t + [d] + rest) == |t|
  {
    if t != [] {
      assert (t + [d] + rest)[1..] == t[1..] + [d] + rest;
      RunLengthOfField(t[1..], d, rest);
    }
  }

  /** A line of three tokens, each closed by a delimiter, parses into those tokens. */
  lemma ParseThreeFields(symbol: string, start: string, length: string, d1: char, d2: char, d3: char)
    requires symbol != [] && NoDelims(symbol)
    requires start != [] && NoDelims(start)
    requires length != [] && NoDelims(length)
    requires IsDelim(d1) && IsDelim(d2) && IsDelim(d3)
    ensures ParseLine(symbol + [d1] + start + [d2] + length + [d3])
            == Some(Entry(symbol, Position(Atoi(start), Atoi(length))))
  {
    var line := symbol + [d1] + start + [d2] + length + [d3];
    assert line == symbol + [d1] + (start + [d2] + (length + [d3] + []));
    NextTokenOfField(symbol, d1, start + [d2] + (length + [d3] + []));
    NextTokenOfField(start, d2, length + [d3] + []);
    NextTokenOfField(length, d3, []);
  }

  /** Round trip: the reader parses a formatted index record back into the same entry. */
  lemma ParseFormatLine(e: Entry)
    requires WellFormedSymbol(e.symbol)
    ensures ParseLine(FormatLine(e)) == Some(e)
  {
    var a := Decimal(e.position.start);
    var b := Decimal(e.position.length);
    assert NoDelims(a) && NoDelims(b);
    assert FormatLine(e) == e.symbol + ['\t'] + a + ['\t'] + b + ['\n'];
    ParseThreeFields(e.symbol, a, b, '\t', '\t', '\n');
    AtoiDecimal(e.position.start, []);
    AtoiDecimal(e.position.length, []);
    assert a + [] == a && b + [] == b;
  }

  /**
   * A catalog loaded from well-formed records resolves each record's symbol
   * to that record's position, provided no later record repeats the symbol.
   */
  lemma ResolveLoadedRecord(positions: Positions, entries: seq<Entry>, i: nat)
    requires forall k :: 0 <= k < |entries| ==> WellFormedSymbol(entries[k].symbol)
    requires i < |entries|
    requires forall j :: i < j < |entries| ==> entries[j].symbol != entries[i].symbol
    ensures Resolve(Load(positions, seq(|entries|, k requires 0 <= k < |entries| => FormatLine(entries[k]))), entries[i].symbol)
            == Some(entries[i].position)
  {
    var lines := seq(|entries|, k requires 0 <= k < |entries| => FormatLine(entries[k]));
    ParseFormatLine(entries[i]);
    forall j | i < j < |lines| ensures !Defines(lines[j], entries[i].symbol) {
      ParseFormatLine(entries[j]);
    }
    LoadLatest(positions, lines, i, entries[i].symbol);
  }
}
