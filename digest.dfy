/** Reading an arXiv digest e-mail body: cutting it into paper entries at the horizontal
    rules (`extract_texts`) and reading a (title, abstract, link) triple out of each entry
    (`parse_text`). */
module Digest {
  import opened Wrappers
  import opened PyStr

  /** `filterer.match(x)` with `filterer = re.compile(r'\\\\' + '\r\n*')`: two backslashes
      and a CR at the start; the `\n*` after it also matches zero line feeds. */
  predicate IsPaperBlock(piece: string): (b: bool)
    ensures b <==> StartsWith(piece, BlockMarker)
  {
    StartsWithPrefix(piece, BlockMarker);
    |piece| >= 3 && piece[0] == '\\' && piece[1] == '\\' && piece[2] == '\r'
  }

  /** Two backslashes and a CR: what `filterer` looks for at the start of a piece. */
  const BlockMarker: string := "\\\\\r"

  /** `[x[4:] for x in pieces if filterer.match(x)]`. */
  function Keep(pieces: seq<string>): (r: seq<string>)
    ensures |r| <= |pieces|
  {
    if pieces == [] then []
    else (if IsPaperBlock(pieces[0]) then [Drop(pieces[0], 4)] else []) + Keep(pieces[1..])
  }

  /** The pieces of one digest body kept as paper entries, in order. */
  function ExtractBlocks(body: string): (r: seq<string>)
    ensures |r| <= |Split(HorizontalRule, body)|
  {
    Keep(Split(HorizontalRule, body))
  }

  /** Keep works piece by piece: it keeps the order, and what it does to a piece does not
      depend on the others. */
  lemma {:induction false} KeepAppend(a: seq<string>, b: seq<string>)
    ensures Keep(a + b) == Keep(a) + Keep(b)
  {
    if a == [] {
      assert a + b == b;
    } else {
      assert (a + b)[0] == a[0] && (a + b)[1..] == a[1..] + b;
      KeepAppend(a[1..], b);
      var head := if IsPaperBlock(a[0]) then [Drop(a[0], 4)] else [];
      assert Keep(a + b) == head + (Keep(a[1..]) + Keep(b));
      assert Keep(a) == head + Keep(a[1..]);
    }
  }

  /** A single piece is kept, minus its first four characters, exactly when it is a paper block. */
  lemma KeepOne(x: string)
    ensures Keep([x]) == if IsPaperBlock(x) then [Drop(x, 4)] else []
  {
  }

  /** Every kept entry is a paper block with its first four characters cut off, and every
      paper block is kept. */
  lemma {:induction false} KeepMembers(pieces: seq<string>)
    ensures forall k :: 0 <= k < |Keep(pieces)| ==>
      exists j :: 0 <= j < |pieces| && IsPaperBlock(pieces[j]) && Keep(pieces)[k] == Drop(pieces[j], 4)
    ensures forall j :: 0 <= j < |pieces| && IsPaperBlock(pieces[j]) ==> Drop(pieces[j], 4) in Keep(pieces)
  {
    if pieces != [] {
      KeepMembers(pieces[1..]);
      var head := if IsPaperBlock(pieces[0]) then [Drop(pieces[0], 4)] else [];
      assert Keep(pieces) == head + Keep(pieces[1..]);
      forall k | 0 <= k < |Keep(pieces)|
        ensures exists j :: 0 <= j < |pieces| && IsPaperBlock(pieces[j]) && Keep(pieces)[k] == Drop(pieces[j], 4)
      {
        if k < |head| {
          assert IsPaperBlock(pieces[0]) && Keep(pieces)[k] == Drop(pieces[0], 4);
        } else {
          var j :| 0 <= j < |pieces[1..]| && IsPaperBlock(pieces[1..][j]) && Keep(pieces[1..])[k - |head|] == Drop(pieces[1..][j], 4);
          assert pieces[j + 1] == pieces[1..][j];
          assert Keep(pieces)[k] == Keep(pieces[1..])[k - |head|];
          assert 0 <= j + 1 < |pieces| && IsPaperBlock(pieces[j + 1]) && Keep(pieces)[k] == Drop(pieces[j + 1], 4);
        }
      }
      forall j | 0 <= j < |pieces| && IsPaperBlock(pieces[j]) ensures Drop(pieces[j], 4) in Keep(pieces) {
        if j > 0 {
          assert pieces[1..][j - 1] == pieces[j];
          assert IsPaperBlock(pieces[1..][j - 1]);
          assert Drop(pieces[j], 4) in Keep(pieces[1..]);
        } else {
          assert Keep(pieces)[0] == Drop(pieces[0], 4);
        }
      }
    } else {
      assert Keep(pieces) == [];
    }
  }

  /** No extracted entry contains a horizontal rule. */
  lemma ExtractedBlockHasNoRule(body: string, k: nat)
    requires k < |ExtractBlocks(body)|
    ensures Free(HorizontalRule, ExtractBlocks(body)[k])
  {
    var pieces := Split(HorizontalRule, body);
    assert ExtractBlocks(body) == Keep(pieces);
    KeepMembers(pieces);
    var j :| 0 <= j < |pieces| && IsPaperBlock(pieces[j]) && Keep(pieces)[k] == Drop(pieces[j], 4);
    SplitPieceFree(HorizontalRule, body, j);
    if |pieces[j]| >= 4 {
      FreeInfix(HorizontalRule, pieces[j], 4, |pieces[j]|);
      assert Drop(pieces[j], 4) == pieces[j][4..|pieces[j]|];
    }
  }

  /** The piece that holds one paper entry in a digest: the marker line `\\` and the entry. */
  function EntryPiece(entry: string): (piece: string)
    ensures IsPaperBlock(piece) && Drop(piece, 4) == entry
  {
    var piece := "\\\\\r\n" + entry;
    assert piece[4..] == entry;
    piece
  }

  function EntryPieces(entries: seq<string>): (pieces: seq<string>)
    ensures |pieces| == |entries|
    ensures forall k :: 0 <= k < |entries| ==> pieces[k] == EntryPiece(entries[k])
  {
    if entries == [] then [] else [EntryPiece(entries[0])] + EntryPieces(entries[1..])
  }

  lemma {:induction false} KeepEntries(entries: seq<string>)
    ensures Keep(EntryPieces(entries)) == entries
  {
    if entries != [] {
      KeepEntries(entries[1..]);
      assert EntryPieces(entries)[1..] == EntryPieces(entries[1..]);
    }
  }

  /** A digest laid out as a header, then each entry behind its own rule line, then a
      footer behind one more rule, yields exactly its entries, in order, provided the
      header and footer are not entries themselves, nothing contains a rule and no piece
      before a rule ends in a dash. */
  lemma ExtractLaidOutDigest(header: string, entries: seq<string>, footer: string, rules: seq<string>)
    requires |rules| == |entries| + 1
    requires forall k :: 0 <= k < |rules| ==> IsRuleLine(rules[k])
    requires !IsPaperBlock(header) && !IsPaperBlock(footer)
    requires Free(HorizontalRule, header) && Free(HorizontalRule, footer)
    requires forall k :: 0 <= k < |entries| ==> Free(HorizontalRule, EntryPiece(entries[k]))
    requires header == [] || header[|header| - 1] != '-'
    requires forall k :: 0 <= k < |entries| ==> entries[k] == [] || entries[k][|entries[k]| - 1] != '-'
    ensures ExtractBlocks(Weave([header] + EntryPieces(entries) + [footer], rules)) == entries
  {
    var pieces := [header] + EntryPieces(entries) + [footer];
    forall k | 0 <= k < |pieces| ensures Free(HorizontalRule, pieces[k]) {
    }
    forall k | 0 <= k < |rules| ensures pieces[k] == [] || pieces[k][|pieces[k]| - 1] != '-' {
      if k > 0 {
        EntryPieceEnd(entries[k - 1]);
      }
    }
    WeaveSplit(pieces, rules);
    KeepLaidOut(header, entries, footer);
  }

  lemma KeepLaidOut(header: string, entries: seq<string>, footer: string)
    requires !IsPaperBlock(header) && !IsPaperBlock(footer)
    ensures Keep([header] + EntryPieces(entries) + [footer]) == entries
  {
    KeepAppend([header] + EntryPieces(entries), [footer]);
    KeepAppend([header], EntryPieces(entries));
    KeepEntries(entries);
  }

  /** An entry piece ends where its entry ends, or in the marker's LF. */
  lemma EntryPieceEnd(e: string)
    ensures var p := EntryPiece(e);
      p[|p| - 1] == if e == [] then '\n' else e[|e| - 1]
  {
  }

  /** What parse_text reads from one entry. The first field is whatever follows the first
      six characters of the entry's first line: in arXiv's layout that line is
      `arXiv:<id>`, so it holds the paper's id. */
  datatype Paper = Paper(title: string, abstractText: string, link: string)

  /** CR LF and two backslashes: the line `\\` that ends the header and the abstract. */
  const EntryDelimiter: NonEmptyString := "\r\n\\\\"
  const CRLF: NonEmptyString := "\r\n"
  const Space: NonEmptyString := " "

  /** `parse_text`: the three fields, or None where an index is out of range (fewer than
      three parts between delimiters, or fewer than three space-separated tokens in the
      third part). Slicing the title and splitting never fail. */
  function ParseText(text: string): (r: Option<Paper>)
    ensures var parts := Split(Literal(EntryDelimiter), text);
      r.Some? <==> |parts| >= 3 && |Split(Literal(Space), parts[2])| >= 3
  {
    var parts := Split(Literal(EntryDelimiter), text);
    var title := Drop(Split(Literal(CRLF), parts[0])[0], 6);
    if |parts| < 3 then None
    else
      var abstractText := Strip(Replace(parts[1], CRLF, " "));
      var tokens := Split(Literal(Space), parts[2]);
      if |tokens| < 3 then None
      else Some(Paper(title, abstractText, tokens[2]))
  }

  /** The abstract is one line with no surrounding whitespace, the link has no space and
      the title has no line break. */
  lemma ParsedFieldsClean(text: string)
    requires ParseText(text).Some?
    ensures var p := ParseText(text).value;
      Free(Literal(CRLF), p.abstractText) &&
      (p.abstractText == [] || (!IsSpace(p.abstractText[0]) && !IsSpace(p.abstractText[|p.abstractText| - 1]))) &&
      ' ' !in p.link && Free(Literal(CRLF), p.title)
  {
    var parts := Split(Literal(EntryDelimiter), text);
    var p := ParseText(text).value;
    OneLineAbstract(parts[1]);
    SplitPieceFree(Literal(Space), parts[2], 2);
    FreeCharAbsent(' ', p.link);
    SplitPieceFree(Literal(CRLF), parts[0], 0);
    var line := Split(Literal(CRLF), parts[0])[0];
    if 6 <= |line| {
      FreeInfix(Literal(CRLF), line, 6, |line|);
      assert p.title == line[6..|line|];
    } else {
      assert p.title == [];
    }
  }

  /** Replacing every CRLF by a space and stripping leaves no CRLF. */
  lemma OneLineAbstract(s: string)
    ensures Free(Literal(CRLF), Strip(Replace(s, CRLF, " ")))
  {
    ReplacedLineBreaks(s);
    StripKeepsFree(Literal(CRLF), Replace(s, CRLF, " "));
  }

  lemma ReplacedLineBreaks(s: string)
    ensures Free(Literal(CRLF), Replace(s, CRLF, " "))
  {
    var pieces := Split(Literal(CRLF), s);
    forall k | 0 <= k < |pieces| ensures Free(Literal(CRLF), pieces[k]) {
      SplitPieceFree(Literal(CRLF), s, k);
    }
    assert forall c :: c in Space ==> c == ' ';
    JoinFree(CRLF, pieces, Space);
  }

  lemma StripKeepsFree(p: Pattern, s: string)
    requires Free(p, s)
    ensures Free(p, Strip(s))
  {
    StripIsSlice(s);
    FreeSlice(p, s, Strip(s), SkipSpaces(s, 0), SkipSpaces(s, 0) + |Strip(s)|);
  }

  /** An entry with no backslash has no `\\` line and is rejected. */
  lemma NoBackslashRejected(text: string)
    requires '\\' !in text
    ensures ParseText(text) == None
  {
    FreeWithoutChar(EntryDelimiter, text, '\\');
    SplitWhole(Literal(EntryDelimiter), text);
  }

  /** An entry laid out as arXiv lays it out is read back field by field: a first line made
      of a six-character tag and the title, further header lines, the `\\` line, the
      abstract lines, another `\\` line, and then two tokens before the link. */
  lemma ParseLaidOutEntry(tag: string, title: string, header: string, abstractText: string,
                          t0: string, t1: string, link: string, tail: string)
    requires |tag| == 6
    requires Free(Literal(CRLF), tag + title)
    requires Free(Literal(EntryDelimiter), tag + title + CRLF + header)
    requires Free(Literal(EntryDelimiter), abstractText)
    requires ' ' !in t0 && ' ' !in t1 && ' ' !in link
    requires '\\' !in t0 && '\\' !in t1 && '\\' !in link
    requires tail == [] || (tail[0] == ' ' && '\\' !in tail)
    ensures ParseText(Join([tag + title + CRLF + header, abstractText, t0 + " " + t1 + " " + link + tail], EntryDelimiter))
      == Some(Paper(title, Strip(Replace(abstractText, CRLF, " ")), link))
  {
    var p0 := tag + title + CRLF + header;
    var p2 := t0 + " " + t1 + " " + link + tail;
    assert '\\' in EntryDelimiter;
    FreeWithoutChar(EntryDelimiter, p2, '\\');
    EntryParts(p0, abstractText, p2);
    FirstLine(tag + title, header);
    LinkToken(t0, t1, link, tail);
    assert Drop(tag + title, 6) == title;
  }

  /** Three delimiter-free parts joined at the delimiter split back into those parts. */
  lemma EntryParts(p0: string, p1: string, p2: string)
    requires Free(Literal(EntryDelimiter), p0) && Free(Literal(EntryDelimiter), p1) && Free(Literal(EntryDelimiter), p2)
    ensures Split(Literal(EntryDelimiter), Join([p0, p1, p2], EntryDelimiter)) == [p0, p1, p2]
  {
    assert FirstCharUnique(EntryDelimiter) by {
      assert EntryDelimiter[0] == '\r' && EntryDelimiter[1] == '\n' && EntryDelimiter[2] == '\\' && EntryDelimiter[3] == '\\';
    }
    var parts := [p0, p1, p2];
    forall k | 0 <= k < 3 ensures Free(Literal(EntryDelimiter), parts[k]) {
    }
    JoinSplit(EntryDelimiter, parts);
  }

  lemma FirstLine(line: string, rest: string)
    requires Free(Literal(CRLF), line)
    ensures Split(Literal(CRLF), line + CRLF + rest)[0] == line
  {
    assert FirstCharUnique(CRLF) by {
      assert CRLF[0] == '\r' && CRLF[1] == '\n';
    }
    NoEarlyMatch(CRLF, line, rest);
    SplitFirst(CRLF, line, rest);
  }

  lemma LinkToken(t0: string, t1: string, link: string, tail: string)
    requires ' ' !in t0 && ' ' !in t1 && ' ' !in link
    requires tail == [] || tail[0] == ' '
    ensures var tokens := Split(Literal(Space), t0 + " " + t1 + " " + link + tail);
      |tokens| >= 3 && tokens[2] == link
  {
    SpacedTokens(t0, t1, link, tail);
    TokenFirst(t0, t1 + [' '] + (link + tail));
    TokenFirst(t1, link + tail);
    LastToken(link, tail);
    ThirdPiece(t0, t1, Split(Literal(Space), link + tail));
  }

  /** Index and concatenation facts kept apart from the Split terms of `LinkToken`,
      where the solver would otherwise mix them with Split's unfoldings. */
  lemma ThirdPiece(a: string, b: string, rest: seq<string>)
    requires |rest| >= 1
    ensures |[a] + ([b] + rest)| >= 3 && ([a] + ([b] + rest))[2] == rest[0]
  {
  }

  /** Regrouping the tokens of a link line, kept apart from `LinkToken` in the same way. */
  lemma SpacedTokens(t0: string, t1: string, link: string, tail: string)
    ensures t0 + " " + t1 + " " + link + tail == t0 + [' '] + (t1 + [' '] + (link + tail))
  {
  }

  /** A token with no space in front of a space is the first piece of the split. */
  lemma TokenFirst(t: string, rest: string)
    requires ' ' !in t
    ensures Split(Literal(Space), t + [' '] + rest) == [t] + Split(Literal(Space), rest)
  {
    assert ' ' in Space;
    FreeWithoutChar(Space, t, ' ');
    SplitAppendChar(' ', t, rest);
    SplitWhole(Literal(Space), t);
  }

  lemma LastToken(link: string, tail: string)
    requires ' ' !in link && (tail == [] || tail[0] == ' ')
    ensures var tokens := Split(Literal(Space), link + tail);
      |tokens| >= 1 && tokens[0] == link
  {
    assert ' ' in Space;
    FreeWithoutChar(Space, link, ' ');
    if tail == [] {
      assert link + tail == link;
      SplitWhole(Literal(Space), link);
    } else {
      assert link + tail == link + [' '] + tail[1..];
      TokenFirst(link, tail[1..]);
    }
  }
}
