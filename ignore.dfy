/** The ignore list: a text file of message uids, one per line, that the fetcher never
    reads again. `get_ignored_messages` parses it into a set and `ignore_message` appends
    a line to it. */
module IgnoreList {
  import opened Wrappers
  import opened PyStr

  const Newline: NonEmptyString := "\n"

  /** `set(map(int, [x for x in lines if x]))`: empty lines are skipped, every other line
      must be an integer, else `int` raises ValueError (here None). */
  function ParseLines(lines: seq<string>): (r: Option<set<int>>)
    ensures r.Some? <==> forall i :: 0 <= i < |lines| && lines[i] != [] ==> ParseInt(lines[i]).Some?
    ensures r.Some? ==> forall i :: 0 <= i < |lines| && lines[i] != [] ==> ParseInt(lines[i]).value in r.value
  {
    if lines == [] then Some({})
    else
      var rest := ParseLines(lines[1..]);
      assert forall i :: 1 <= i < |lines| ==> lines[i] == lines[1..][i - 1];
      if lines[0] == [] then rest
      else if ParseInt(lines[0]).Some? && rest.Some? then Some({ParseInt(lines[0]).value} + rest.value)
      else None
  }

  /** Every uid in the set comes from a line of the file. */
  lemma {:induction false} ParseLinesOrigin(lines: seq<string>, v: int)
    requires ParseLines(lines).Some? && v in ParseLines(lines).value
    ensures exists i :: 0 <= i < |lines| && lines[i] != [] && ParseInt(lines[i]) == Some(v)
  {
    var rest := ParseLines(lines[1..]);
    if lines[0] != [] && ParseInt(lines[0]) == Some(v) {
    } else {
      ParseLinesOrigin(lines[1..], v);
      var i :| 0 <= i < |lines[1..]| && lines[1..][i] != [] && ParseInt(lines[1..][i]) == Some(v);
      assert lines[i + 1] == lines[1..][i];
    }
  }

  /** `get_ignored_messages` on the text as read, after newline translation. */
  function ParseTranslated(text: string): Option<set<int>> {
    ParseLines(Split(Literal(Newline), text))
  }

  /** `get_ignored_messages` on the file's contents: the file is opened in text mode, so it
      is split on the line ends universal newlines leave. */
  function ParseIgnoreList(contents: string): (r: Option<set<int>>)
    ensures '\r' !in contents ==> r == ParseTranslated(contents)
  {
    ParseTranslated(Universal(contents))
  }

  /** Two parse results together: both sets, or the error of either. */
  function Union(a: Option<set<int>>, b: Option<set<int>>): Option<set<int>> {
    if a.Some? && b.Some? then Some(a.value + b.value) else None
  }

  /** Parsing lines one block at a time gives the union of the blocks. */
  lemma {:induction false} ParseLinesAppend(a: seq<string>, b: seq<string>)
    ensures ParseLines(a + b) == Union(ParseLines(a), ParseLines(b))
  {
    if a == [] {
      assert a + b == b;
      if ParseLines(b).Some? {
        assert {} + ParseLines(b).value == ParseLines(b).value;
      }
    } else {
      assert (a + b)[0] == a[0] && (a + b)[1..] == a[1..] + b;
      ParseLinesAppend(a[1..], b);
      var head := ParseInt(a[0]);
      if a[0] != [] && head.Some? && ParseLines(a[1..]).Some? && ParseLines(b).Some? {
        var x, y, z := {head.value}, ParseLines(a[1..]).value, ParseLines(b).value;
        assert x + (y + z) == (x + y) + z;
      }
    }
  }

  /** What `ignore_message(uid)` writes: `'\n{}'.format(uid)`, a line break and then one
      line of digits. */
  function Record(uid: nat): (r: string)
    ensures |r| >= 2 && r[0] == '\n' && AllDigits(r[1..])
    ensures '\n' !in r[1..] && '\r' !in r
  {
    var d := DecimalString(uid);
    DigitsNoLineEnd(d);
    var r := "\n" + d;
    assert r[1..] == d;
    r
  }

  /** Splitting at a newline splits the two sides independently. */
  lemma SplitAtNewline(a: string, b: string)
    ensures Split(Literal(Newline), a + "\n" + b) == Split(Literal(Newline), a) + Split(Literal(Newline), b)
  {
    assert Newline == ['\n'];
    assert a + "\n" + b == a + ['\n'] + b;
    SplitAppendChar('\n', a, b);
  }

  lemma EmptyLine()
    ensures Split(Literal(Newline), "") == [""]
    ensures ParseLines([""]) == Some({})
  {
    SplitWhole(Literal(Newline), "");
    assert [""][1..] == [];
  }

  /** A decimal number alone on its line parses to itself. */
  lemma RecordLine(uid: nat)
    ensures Split(Literal(Newline), DecimalString(uid)) == [DecimalString(uid)]
    ensures ParseLines([DecimalString(uid)]) == Some({uid as int})
  {
    var d := DecimalString(uid);
    assert '\n' in Newline;
    DigitsNoLineEnd(d);
    FreeWithoutChar(Newline, d, '\n');
    SplitWhole(Literal(Newline), d);
    ParseDecimal(uid);
    assert [d][0] == d && [d][1..] == [] && d != [];
    assert ParseLines([d][1..]) == Some({});
    assert ParseInt([d][0]) == Some(uid as int);
    assert ParseLines([d]) == Some({uid as int} + {});
    assert {uid as int} + {} == {uid as int};
  }

  /** On translated text, a record adds exactly its uid. */
  lemma AppendLine(text: string, uid: nat)
    ensures ParseTranslated(text + Record(uid)) == Union(ParseTranslated(text), Some({uid as int}))
  {
    var d := DecimalString(uid);
    assert text + Record(uid) == text + "\n" + d;
    SplitAtNewline(text, d);
    RecordLine(uid);
    ParseLinesAppend(Split(Literal(Newline), text), [d]);
  }

  lemma EmptyLineSplit(text: string)
    ensures Split(Literal(Newline), text + "\n") == Split(Literal(Newline), text) + [""]
  {
    assert text + "\n" == text + "\n" + "";
    SplitAtNewline(text, "");
    EmptyLine();
  }

  /** On translated text, an empty line contributes nothing. */
  lemma EmptyLineSkipped(text: string)
    ensures ParseTranslated(text + "\n") == ParseTranslated(text)
  {
    EmptyLineSplit(text);
    ParseLinesAppend(Split(Literal(Newline), text), [""]);
    EmptyLine();
    if ParseTranslated(text).Some? {
      assert ParseTranslated(text).value + {} == ParseTranslated(text).value;
    }
  }

  /** A record is read as written, after whatever its first LF becomes. */
  lemma ReadRecord(contents: string, uid: nat)
    ensures Universal(contents + Record(uid)) == Universal(contents + "\n") + DecimalString(uid)
  {
    var d := DecimalString(uid);
    DigitsNoLineEnd(d);
    assert contents + Record(uid) == (contents + "\n") + d;
    UniversalAppend(contents + "\n", d);
  }

  /** A record appended after text, kept apart from the Split and Universal terms of
      `AppendRecord`, where the solver would otherwise mix it with their unfoldings. */
  lemma RecordAfter(text: string, uid: nat)
    ensures text + "\n" + DecimalString(uid) == text + Record(uid)
  {
  }

  /** Appending a record adds exactly its uid to the parsed set (and a file that did not
      parse still does not), also after a file that ends in CR or CR LF. */
  lemma AppendRecord(contents: string, uid: nat)
    ensures ParseIgnoreList(contents + Record(uid)) == Union(ParseIgnoreList(contents), Some({uid as int}))
  {
    ReadRecord(contents, uid);
    UniversalNewline(contents);
    if contents != [] && contents[|contents| - 1] == '\r' {
      var u := Universal(contents[..|contents| - 1]);
      UniversalTrailingCR(contents);
      RecordAfter(u, uid);
      AppendLine(u, uid);
      EmptyLineSkipped(u);
    } else {
      RecordAfter(Universal(contents), uid);
      AppendLine(Universal(contents), uid);
    }
  }

  /** Ignoring the same message twice ignores nothing more. */
  lemma AppendRecordTwice(contents: string, uid: nat)
    ensures ParseIgnoreList(contents + Record(uid) + Record(uid)) == ParseIgnoreList(contents + Record(uid))
  {
    AppendRecord(contents, uid);
    AppendRecord(contents + Record(uid), uid);
  }

  /** An empty line contributes nothing, whatever line end precedes it. */
  lemma EmptyLineIgnored(contents: string)
    ensures ParseIgnoreList(contents + "\n") == ParseIgnoreList(contents)
  {
    UniversalNewline(contents);
    EmptyLineSkipped(Universal(contents));
  }

  /** The records of uids appended one after the other. */
  function Records(uids: seq<nat>): string {
    if uids == [] then "" else Records(uids[..|uids| - 1]) + Record(uids[|uids| - 1])
  }

  /** The uids of a list of records, as the integers they parse to. */
  function UidSet(uids: seq<nat>): set<int> {
    set u | u in uids :: u as int
  }

  lemma UidSetSnoc(init: seq<nat>, last: nat)
    ensures UidSet(init + [last]) == UidSet(init) + {last as int}
  {
    forall x | x in UidSet(init + [last]) ensures x in UidSet(init) + {last as int} {
      var u :| u in init + [last] && x == u as int;
    }
    forall x | x in UidSet(init) + {last as int} ensures x in UidSet(init + [last]) {
      if x == last as int {
        assert last in init + [last];
      } else {
        var u :| u in init && x == u as int;
        assert u in init + [last];
      }
    }
  }

  lemma RecordsSnoc(contents: string, init: seq<nat>, last: nat)
    ensures contents + Records(init + [last]) == contents + Records(init) + Record(last)
  {
    assert (init + [last])[..|init|] == init;
  }

  /** A file written only by `ignore_message` (opened for appending, so it starts out
      empty) parses to exactly the uids written to it; and records appended to any file
      add exactly their uids. */
  lemma {:induction false} AppendRecords(contents: string, uids: seq<nat>)
    ensures ParseIgnoreList(contents + Records(uids)) == Union(ParseIgnoreList(contents), Some(UidSet(uids)))
  {
    if uids == [] {
      assert contents + Records(uids) == contents;
      assert UidSet(uids) == {};
      if ParseIgnoreList(contents).Some? {
        assert ParseIgnoreList(contents).value + {} == ParseIgnoreList(contents).value;
      }
    } else {
      var init, last := uids[..|uids| - 1], uids[|uids| - 1];
      assert uids == init + [last];
      AppendRecords(contents, init);
      RecordsSnoc(contents, init, last);
      AppendRecord(contents + Records(init), last);
      UidSetSnoc(init, last);
      if ParseIgnoreList(contents).Some? {
        var x, y := ParseIgnoreList(contents).value, UidSet(init);
        assert x + y + {last as int} == x + (y + {last as int});
      }
    }
  }

  lemma EmptyFile()
    ensures ParseIgnoreList("") == Some({})
  {
    EmptyLine();
    assert '\r' !in "";
  }

  /** The `.ignore` file, which the fetcher only ever appends to. */
  class IgnoreFile {
    var contents: string

    constructor (initial: string)
      ensures contents == initial
    {
      contents := initial;
    }

    /** `get_ignored_messages()`. */
    function Ignored(): (r: Option<set<int>>)
      reads this
      ensures var lines := Split(Literal(Newline), Universal(contents));
        r.Some? <==> forall i :: 0 <= i < |lines| && lines[i] != [] ==> ParseInt(lines[i]).Some?
      ensures var lines := Split(Literal(Newline), Universal(contents));
        r.Some? ==> forall i :: 0 <= i < |lines| && lines[i] != [] ==> ParseInt(lines[i]).value in r.value
    {
      assert ParseIgnoreList(contents) == ParseLines(Split(Literal(Newline), Universal(contents)));
      ParseIgnoreList(contents)
    }

    /** `ignore_message(uid)`: the uid joins the parsed set and nothing else changes. */
    method Append(uid: nat)
      modifies this
      ensures contents == old(contents) + Record(uid)
      ensures Ignored() == Union(old(Ignored()), Some({uid as int}))
    {
      AppendRecord(contents, uid);
      contents := contents + Record(uid);
    }
  }
}
