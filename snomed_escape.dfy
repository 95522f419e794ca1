/**
 * The quote fix-up that escapeQuotes (importer/snomed.go) applies to each line
 * of the SNOMED description file before the CSV reader sees it: in a line
 * holding a double quote, the eighth tab-separated field (the term) is wrapped
 * in quotes and its own quotes are doubled. Lines are strings without their
 * line terminator, as the line scanner hands them over.
 */
module Escape {
  import opened Wrappers

  const Tab: char := '\t'
  const Quote: char := '"'
  const Newline: char := '\n'

  /** The index of the term field. */
  const TermField: nat := 7

  /**
   * strings.Split(s, sep) for a one-character separator: the pieces between
   * separators, so the empty string gives one empty piece.
   */
  function Split(s: string, sep: char): (r: seq<string>)
    ensures |r| >= 1
    ensures forall f :: f in r ==> sep !in f
    decreases |s|
  {
    if s == [] then [""]
    else
      var rest := Split(s[1..], sep);
      if s[0] == sep then [""] + rest
      else [[s[0]] + rest[0]] + rest[1..]
  }

  /** strings.Join(fields, sep). */
  function Join(fields: seq<string>, sep: char): string
    decreases |fields|
  {
    if fields == [] then ""
    else if |fields| == 1 then fields[0]
    else fields[0] + [sep] + Join(fields[1..], sep)
  }

  lemma JoinCons(f: string, fields: seq<string>, sep: char)
    requires fields != []
    ensures Join([f] + fields, sep) == f + [sep] + Join(fields, sep)
  {
    assert ([f] + fields)[1..] == fields;
  }

  /** Joining the pieces of a split gives back the string. */
  lemma {:induction false} JoinSplit(s: string, sep: char)
    ensures Join(Split(s, sep), sep) == s
    decreases |s|
  {
    if s != [] {
      var rest := Split(s[1..], sep);
      JoinSplit(s[1..], sep);
      if s[0] == sep {
        JoinCons("", rest, sep);
        assert s == [s[0]] + s[1..];
      } else if |rest| == 1 {
        assert s == [s[0]] + s[1..];
      } else {
        var r := [[s[0]] + rest[0]] + rest[1..];
        assert r[1..] == rest[1..];
        JoinCons(rest[0], rest[1..], sep);
        assert rest == [rest[0]] + rest[1..];
        assert s == [s[0]] + s[1..];
      }
    }
  }

  /** A piece without the separator followed by the separator splits off as one field. */
  lemma {:induction false} SplitCons(f: string, sep: char, rest: string)
    requires sep !in f
    ensures Split(f + [sep] + rest, sep) == [f] + Split(rest, sep)
    decreases |f|
  {
    var s := f + [sep] + rest;
    if f == [] {
      assert s[1..] == rest;
    } else {
      assert s[1..] == f[1..] + [sep] + rest;
      SplitCons(f[1..], sep, rest);
      assert f == [f[0]] + f[1..];
    }
  }

  /** A string without the separator is a single field. */
  lemma {:induction false} SplitNoSeparator(f: string, sep: char)
    requires sep !in f
    ensures Split(f, sep) == [f]
    decreases |f|
  {
    if f != [] {
      SplitNoSeparator(f[1..], sep);
      assert f == [f[0]] + f[1..];
    }
  }

  /** Splitting a join of separator-free fields gives back the fields. */
  lemma {:induction false} SplitJoin(fields: seq<string>, sep: char)
    requires |fields| >= 1
    requires forall f :: f in fields ==> sep !in f
    ensures Split(Join(fields, sep), sep) == fields
    decreases |fields|
  {
    assert fields[0] in fields;
    if |fields| == 1 {
      SplitNoSeparator(fields[0], sep);
    } else {
      var tail := fields[1..];
      assert forall g :: g in tail ==> g in fields;
      SplitJoin(tail, sep);
      SplitCons(fields[0], sep, Join(tail, sep));
      assert fields == [fields[0]] + tail;
    }
  }

  /** strings.Replace(s, "\"", "\"\"", -1): every quote doubled, nothing else touched. */
  function DoubleQuotes(s: string): (r: string)
    ensures |r| == |s| + Count(s, Quote)
    ensures forall c :: c != Quote ==> (c in r <==> c in s)
    decreases |s|
  {
    if s == [] then []
    else (if s[0] == Quote then [Quote, Quote] else [s[0]]) + DoubleQuotes(s[1..])
  }

  function Count(s: string, c: char): nat
    decreases |s|
  {
    if s == [] then 0 else (if s[0] == c then 1 else 0) + Count(s[1..], c)
  }

  /** The term field after the fix-up: quoted, with inner quotes doubled. */
  function QuoteField(s: string): (r: string)
    ensures |r| >= 2 && r[0] == Quote && r[|r| - 1] == Quote
    ensures forall c :: c != Quote ==> (c in r <==> c in s)
  {
    [Quote] + DoubleQuotes(s) + [Quote]
  }

  /**
   * How a CSV reader reads a doubled run back: a pair of quotes stands for one
   * quote; a lone quote means the text was not produced by DoubleQuotes.
   */
  function UndoubleQuotes(t: string): Option<string>
    decreases |t|
  {
    if t == [] then Some([])
    else if t[0] == Quote then
      if |t| >= 2 && t[1] == Quote then
        match UndoubleQuotes(t[2..])
        case None => None
        case Some(s) => Some([Quote] + s)
      else None
    else
      match UndoubleQuotes(t[1..])
      case None => None
      case Some(s) => Some([t[0]] + s)
  }

  /** Strips the enclosing quotes of a quoted field and undoubles its inside. */
  function UnquoteField(t: string): Option<string> {
    if |t| >= 2 && t[0] == Quote && t[|t| - 1] == Quote then UndoubleQuotes(t[1..|t| - 1]) else None
  }

  lemma {:induction false} UndoubleDouble(s: string)
    ensures UndoubleQuotes(DoubleQuotes(s)) == Some(s)
    decreases |s|
  {
    if s != [] {
      UndoubleDouble(s[1..]);
      var t := DoubleQuotes(s);
      if s[0] == Quote {
        assert t[2..] == DoubleQuotes(s[1..]);
      } else {
        assert t[1..] == DoubleQuotes(s[1..]);
      }
      assert s == [s[0]] + s[1..];
    }
  }

  /** Reading a quoted field back gives the original term. */
  lemma UnquoteQuote(s: string)
    ensures UnquoteField(QuoteField(s)) == Some(s)
  {
    var t := QuoteField(s);
    assert t[1..|t| - 1] == DoubleQuotes(s);
    UndoubleDouble(s);
  }

  /**
   * The per-line transform. None is the index-out-of-range panic that a line
   * with a quote but fewer than eight fields causes.
   */
  function FixLine(line: string): Option<string> {
    if Quote !in line then Some(line)
    else
      var fields := Split(line, Tab);
      if |fields| <= TermField then None
      else Some(Join(fields[TermField := QuoteField(fields[TermField])], Tab))
  }

  /**
   * A line with a quote and at least eight fields keeps its field count; field
   * 7 is replaced by its quoted form and the others are unchanged.
   */
  lemma FixLineFields(line: string)
    requires Quote in line
    ensures var fields := Split(line, Tab);
      FixLine(line).Some? <==> |fields| > TermField
    ensures var fields := Split(line, Tab);
      FixLine(line).Some? ==> Split(FixLine(line).value, Tab) == fields[TermField := QuoteField(fields[TermField])]
  {
    var fields := Split(line, Tab);
    if |fields| > TermField {
      var fields' := fields[TermField := QuoteField(fields[TermField])];
      assert forall f :: f in fields' ==> Tab !in f by {
        forall f | f in fields' ensures Tab !in f {
          var j :| 0 <= j < |fields'| && fields'[j] == f;
          if j != TermField {
            assert fields[j] in fields;
          } else {
            assert fields[TermField] in fields;
          }
        }
      }
      SplitJoin(fields', Tab);
    }
  }

  /** A line without quotes passes through untouched, and every fixed line stays one line. */
  lemma FixLineKeepsLines(line: string)
    ensures Quote !in line ==> FixLine(line) == Some(line)
    ensures Newline !in line && FixLine(line).Some? ==> Newline !in FixLine(line).value
  {
    if Quote in line && Newline !in line && FixLine(line).Some? {
      var fields := Split(line, Tab);
      var fields' := fields[TermField := QuoteField(fields[TermField])];
      JoinSplit(line, Tab);
      JoinNoChar(fields, Tab, Newline);
      assert forall f :: f in fields ==> Newline !in f;
      forall f | f in fields' ensures Newline !in f {
        var j :| 0 <= j < |fields'| && fields'[j] == f;
        assert fields[j] in fields;
      }
      JoinNoChar(fields', Tab, Newline);
    }
  }

  /** A character other than the separator is in a join exactly when it is in some field. */
  lemma {:induction false} JoinNoChar(fields: seq<string>, sep: char, c: char)
    requires c != sep
    ensures c in Join(fields, sep) <==> exists f :: f in fields && c in f
    decreases |fields|
  {
    if |fields| > 1 {
      JoinNoChar(fields[1..], sep, c);
      if c in Join(fields, sep) {
        var s := Join(fields, sep);
        assert s == fields[0] + [sep] + Join(fields[1..], sep);
        if c !in fields[0] {
          var f :| f in fields[1..] && c in f;
          assert f in fields;
        }
      } else {
        assert forall f :: f in fields ==> f == fields[0] || f in fields[1..];
      }
    }
  }

  /** The fixed lines of ls, each followed by a line feed. */
  function Output(ls: seq<string>): string
    requires forall k :: 0 <= k < |ls| ==> FixLine(ls[k]).Some?
    decreases |ls|
  {
    if ls == [] then []
    else Output(ls[..|ls| - 1]) + FixLine(ls[|ls| - 1]).value + [Newline]
  }

  /** The fixed lines in order. */
  function Fixed(ls: seq<string>): (r: seq<string>)
    requires forall k :: 0 <= k < |ls| ==> FixLine(ls[k]).Some?
    ensures |r| == |ls|
    ensures forall k :: 0 <= k < |ls| ==> r[k] == FixLine(ls[k]).value
    decreases |ls|
  {
    if ls == [] then [] else Fixed(ls[..|ls| - 1]) + [FixLine(ls[|ls| - 1]).value]
  }

  /** The output is the fixed lines joined by line feeds, with a final line feed. */
  lemma {:induction false} OutputIsJoin(ls: seq<string>)
    requires forall k :: 0 <= k < |ls| ==> FixLine(ls[k]).Some?
    ensures Output(ls) == Join(Fixed(ls) + [""], Newline)
    decreases |ls|
  {
    if ls != [] {
      var init := ls[..|ls| - 1];
      OutputIsJoin(init);
      JoinSnoc(Fixed(init), FixLine(ls[|ls| - 1]).value, Newline);
      assert Fixed(ls) + [""] == Fixed(init) + [FixLine(ls[|ls| - 1]).value] + [""];
    }
  }

  /** Appending one more field before the final empty one. */
  lemma {:induction false} JoinSnoc(fields: seq<string>, x: string, sep: char)
    ensures Join(fields + [x] + [""], sep) == Join(fields + [""], sep) + x + [sep]
    decreases |fields|
  {
    if fields == [] {
      assert [x] + [""] == [x, ""];
      assert ([x] + [""])[1..] == [""];
    } else {
      JoinSnoc(fields[1..], x, sep);
      assert (fields + [x] + [""])[1..] == fields[1..] + [x] + [""];
      assert (fields + [""])[1..] == fields[1..] + [""];
    }
  }

  /** No fixed line holds a line feed when no input line does. */
  lemma FixedSingleLines(ls: seq<string>)
    requires forall k :: 0 <= k < |ls| ==> FixLine(ls[k]).Some?
    requires forall k :: 0 <= k < |ls| ==> Newline !in ls[k]
    ensures forall f :: f in Fixed(ls) ==> Newline !in f
  {
    var fs := Fixed(ls);
    forall j | 0 <= j < |fs| ensures Newline !in fs[j] {
      FixLineKeepsLines(ls[j]);
    }
  }

  /**
   * Reading the output back line by line gives the fixed lines, then the empty
   * piece after the last line feed.
   */
  lemma OutputLines(ls: seq<string>)
    requires forall k :: 0 <= k < |ls| ==> FixLine(ls[k]).Some?
    requires forall k :: 0 <= k < |ls| ==> Newline !in ls[k]
    ensures Split(Output(ls), Newline) == Fixed(ls) + [""]
  {
    OutputIsJoin(ls);
    FixedSingleLines(ls);
    var fs := Fixed(ls) + [""];
    assert forall f :: f in fs ==> Newline !in f;
    SplitJoin(fs, Newline);
  }

  /**
   * The scan loop of escapeQuotes: each line is fixed and written with a line
   * feed. It stops at the first line that makes the fix-up panic; processed
   * counts the lines written before that.
   */
  method EscapeQuotes(lines: seq<string>) returns (written: string, processed: nat, crashed: bool)
    ensures processed <= |lines|
    ensures forall k :: 0 <= k < processed ==> FixLine(lines[k]).Some?
    ensures written == Output(lines[..processed])
    ensures crashed <==> processed < |lines|
    ensures crashed ==> FixLine(lines[processed]).None?
  {
    written := [];
    processed := 0;
    crashed := false;
    while processed < |lines|
      invariant processed <= |lines|
      invariant forall k :: 0 <= k < processed ==> FixLine(lines[k]).Some?
      invariant written == Output(lines[..processed])
    {
      var line := lines[processed];
      var fixed := FixLine(line);
      if fixed.None? {
        crashed := true;
        return;
      }
      assert lines[..processed + 1][..processed] == lines[..processed];
      written := written + fixed.value + [Newline];
      processed := processed + 1;
    }
  }
}
