/** The rest of the pipeline: reading the credentials file, `extract_texts`, the
    aggregation loop of `fetch_paper_data`, and the link rewrite `save_papers` downloads
    from. */
module Fetcher {
  import opened Wrappers
  import opened PyStr
  import opened PyDict
  import opened IgnoreList
  import opened Digest
  import opened Mailbox

  /** The three lines of the `.credentials` file. */
  datatype Credentials = Credentials(server: string, email: string, password: string)

  /** `read_credentials`: read the file in text mode, strip it, split it into lines and
      take the first three; fewer than three lines raise IndexError (here None). Lines
      after the third are ignored. */
  function ReadCredentials(contents: string): (r: Option<Credentials>)
    ensures var lines := Split(Literal(Newline), Strip(Universal(contents)));
      r.Some? <==> |lines| >= 3
  {
    var lines := Split(Literal(Newline), Strip(Universal(contents)));
    if |lines| < 3 then None else Some(Credentials(lines[0], lines[1], lines[2]))
  }

  /** The file is accepted exactly when its stripped text, as read, has at least two line
      breaks. */
  lemma CredentialsNeedTwoNewlines(contents: string)
    ensures ReadCredentials(contents).Some? <==> multiset(Strip(Universal(contents)))['\n'] >= 2
  {
    assert Newline == ['\n'];
    SplitCountChar('\n', Strip(Universal(contents)));
  }

  /** A line without line breaks is one piece. */
  lemma OneLine(line: string)
    requires '\n' !in line
    ensures Split(Literal(Newline), line) == [line]
  {
    FreeWithoutChar(Newline, line, '\n');
    SplitWhole(Literal(Newline), line);
  }

  /** Three lines without line feeds split back into those lines. */
  lemma ThreeLines(server: string, email: string, password: string)
    requires '\n' !in server && '\n' !in email && '\n' !in password
    ensures Split(Literal(Newline), server + "\n" + email + "\n" + password) == [server, email, password]
  {
    NewlineRegroup(server, email, password);
    SplitAtNewline(server, email + "\n" + password);
    SplitAtNewline(email, password);
    OneLine(server);
    OneLine(email);
    OneLine(password);
  }

  /** Regrouping a three-line text, kept apart from the Split terms of `ThreeLines`, where
      the solver would otherwise mix it with Split's unfoldings. */
  lemma NewlineRegroup(a: string, b: string, c: string)
    ensures a + "\n" + b + "\n" + c == a + "\n" + (b + "\n" + c)
  {
  }

  /** Three lines without CR are read as written. */
  lemma ThreeLinesRead(server: string, email: string, password: string)
    requires '\r' !in server && '\r' !in email && '\r' !in password
    ensures Universal(server + "\n" + email + "\n" + password) == server + "\n" + email + "\n" + password
  {
    var text := server + "\n" + email + "\n" + password;
    assert '\r' !in text;
  }

  /** A file written as three lines reads back as those three fields. */
  lemma CredentialsRoundTrip(server: string, email: string, password: string)
    requires '\n' !in server && '\n' !in email && '\n' !in password
    requires '\r' !in server && '\r' !in email && '\r' !in password
    requires server != [] && !IsSpace(server[0])
    requires password != [] && !IsSpace(password[|password| - 1])
    ensures ReadCredentials(server + "\n" + email + "\n" + password) == Some(Credentials(server, email, password))
  {
    var text := server + "\n" + email + "\n" + password;
    ThreeLinesRead(server, email, password);
    assert text[0] == server[0] && text[|text| - 1] == password[|password| - 1];
    StripNoop(text);
    ThreeLines(server, email, password);
  }

  /** A file written with CR LF line ends reads like the same file written with LF. */
  lemma CredentialsCRLF(server: string, email: string, password: string)
    requires '\n' !in server && '\n' !in email && '\n' !in password
    requires '\r' !in server && '\r' !in email && '\r' !in password
    ensures ReadCredentials(server + "\r\n" + email + "\r\n" + password) ==
      ReadCredentials(server + "\n" + email + "\n" + password)
  {
    UniversalCRLF(server);
    UniversalAppend(server + "\r\n", email);
    UniversalCRLF(server + "\r\n" + email);
    UniversalAppend(server + "\r\n" + email + "\r\n", password);
    ThreeLinesRead(server, email, password);
  }

  const AbsPath: NonEmptyString := "/abs/"
  const PdfPath: string := "/pdf/"

  /** Line 172: `abs_link.replace('/abs/', '/pdf/') + '.pdf'`. */
  function PdfLink(link: string): (r: string)
    ensures |r| >= 4 && r[|r| - 4..] == ".pdf"
  {
    Replace(link, AbsPath, PdfPath) + ".pdf"
  }

  /** No occurrence of `/abs/` starts inside a text without the letter b, even when the
      text is followed by `/abs/`. */
  lemma NoAbsBefore(prefix: string, rest: string)
    requires 'b' !in prefix
    ensures forall j :: 0 <= j < |prefix| ==> MatchLength(Literal(AbsPath), (prefix + AbsPath + rest)[j..]) == 0
  {
    var s := prefix + AbsPath + rest;
    forall j | 0 <= j < |prefix| ensures MatchLength(Literal(AbsPath), s[j..]) == 0 {
      LiteralMatch(AbsPath, s[j..]);
      if j + 2 < |prefix| {
        assert s[j + 2] == prefix[j + 2];
      } else {
        assert s[j + 2] == AbsPath[j + 2 - |prefix|];
      }
      assert s[j..][2] == s[j + 2];
    }
  }

  /** An arXiv abstract page `<site>/abs/<id>` maps to its PDF `<site>/pdf/<id>.pdf`, for
      any id without `/abs/` in it, old-style ids such as `q-bio/0401001` included. */
  lemma PdfLinkOfAbsPage(site: string, id: string)
    requires 'b' !in site && Free(Literal(AbsPath), id)
    ensures PdfLink(site + AbsPath + id) == site + PdfPath + id + ".pdf"
  {
    LiteralMatch(AbsPath, AbsPath + id);
    NoAbsBefore(site, id);
    SplitAfter(Literal(AbsPath), site, AbsPath, id);
    SplitWhole(Literal(AbsPath), id);
    assert Split(Literal(AbsPath), site + AbsPath + id) == [site, id];
    assert Join([site, id], PdfPath) == site + PdfPath + id;
  }

  /** The literal facts about the example link, kept apart from the Split terms of
      `PdfLinkExample`. */
  lemma PdfExampleText(site: string, id: string)
    requires site == "http://arxiv.org" && id == "1234.5678"
    ensures 'b' !in site && 'b' !in id
    ensures site + AbsPath + id == "http://arxiv.org/abs/1234.5678"
    ensures site + PdfPath + id + ".pdf" == "http://arxiv.org/pdf/1234.5678.pdf"
  {
  }

  /** The abstract page `http://arxiv.org/abs/1234.5678` gives
      `http://arxiv.org/pdf/1234.5678.pdf`. */
  lemma PdfLinkExample(link: string)
    requires link == "http://arxiv.org/abs/1234.5678"
    ensures PdfLink(link) == "http://arxiv.org/pdf/1234.5678.pdf"
  {
    var site, id := "http://arxiv.org", "1234.5678";
    PdfExampleText(site, id);
    assert 'b' in AbsPath;
    FreeWithoutChar(AbsPath, id, 'b');
    PdfLinkOfAbsPage(site, id);
  }

  /** `extract_texts`: the same keys in the same order, each body replaced by its paper
      blocks. */
  function ExtractTexts(bodies: Dict<string>): (r: Dict<seq<string>>)
    ensures r.keys == bodies.keys && r.entries.Keys == bodies.entries.Keys
    ensures Valid(bodies) ==> Valid(r)
    ensures forall k :: k in r.entries ==> r.entries[k] == ExtractBlocks(bodies.entries[k])
  {
    Dict(bodies.keys, map k | k in bodies.entries :: ExtractBlocks(bodies.entries[k]))
  }

  /** The values present in a list of optional values, in order. */
  function Somes<T>(rs: seq<Option<T>>): (r: seq<T>)
    ensures |r| <= |rs|
  {
    if rs == [] then []
    else Somes(rs[..|rs| - 1]) + (if rs[|rs| - 1].Some? then [rs[|rs| - 1].value] else [])
  }

  lemma {:induction false} SomesAppend<T>(a: seq<Option<T>>, b: seq<Option<T>>)
    ensures Somes(a + b) == Somes(a) + Somes(b)
    decreases |b|
  {
    if b == [] {
      assert a + b == a;
    } else {
      var init := b[..|b| - 1];
      assert (a + b)[..|a + b| - 1] == a + init;
      assert (a + b)[|a + b| - 1] == b[|b| - 1];
      SomesAppend(a, init);
    }
  }

  /** Exactly the present values are kept. */
  lemma {:induction false} SomesMembers<T>(rs: seq<Option<T>>, x: T)
    ensures x in Somes(rs) <==> Some(x) in rs
    decreases |rs|
  {
    if rs != [] {
      var init := rs[..|rs| - 1];
      SomesMembers(init, x);
      assert rs == init + [rs[|rs| - 1]];
    }
  }

  /** With no None, nothing is dropped and the order is kept. */
  lemma {:induction false} SomesAllPresent<T>(rs: seq<Option<T>>)
    requires forall k :: 0 <= k < |rs| ==> rs[k].Some?
    ensures |Somes(rs)| == |rs|
    ensures forall k :: 0 <= k < |rs| ==> Somes(rs)[k] == rs[k].value
    decreases |rs|
  {
    if rs != [] {
      SomesAllPresent(rs[..|rs| - 1]);
    }
  }

  /** `parse_text` of every block, in block order. */
  function Parses(blocks: seq<string>): (rs: seq<Option<Paper>>)
    ensures |rs| == |blocks|
  {
    seq(|blocks|, k requires 0 <= k < |blocks| => ParseText(blocks[k]))
  }

  /** The successful parses of a message's blocks, in block order. */
  function Papers(blocks: seq<string>): (r: seq<Paper>)
    ensures |r| <= |blocks|
  {
    Somes(Parses(blocks))
  }

  lemma PapersAppend(a: seq<string>, b: seq<string>)
    ensures Papers(a + b) == Papers(a) + Papers(b)
  {
    assert Parses(a + b) == Parses(a) + Parses(b);
    SomesAppend(Parses(a), Parses(b));
  }

  /** A paper is in the list exactly when some block parses to it: the None results, and
      only they, are left out. */
  lemma PapersMembers(blocks: seq<string>, p: Paper)
    ensures p in Papers(blocks) <==> exists k :: 0 <= k < |blocks| && ParseText(blocks[k]) == Some(p)
  {
    SomesMembers(Parses(blocks), p);
    if Some(p) in Parses(blocks) {
      var k :| 0 <= k < |blocks| && Parses(blocks)[k] == Some(p);
      assert ParseText(blocks[k]) == Some(p);
    }
    if exists k :: 0 <= k < |blocks| && ParseText(blocks[k]) == Some(p) {
      var k :| 0 <= k < |blocks| && ParseText(blocks[k]) == Some(p);
      assert Parses(blocks)[k] == Some(p);
    }
  }

  /** When every block parses, the list holds every parse, in block order. */
  lemma PapersAllParsed(blocks: seq<string>)
    requires forall k :: 0 <= k < |blocks| ==> ParseText(blocks[k]).Some?
    ensures |Papers(blocks)| == |blocks|
    ensures forall k :: 0 <= k < |blocks| ==> Papers(blocks)[k] == ParseText(blocks[k]).value
  {
    SomesAllPresent(Parses(blocks));
  }

  lemma PapersSnoc(blocks: seq<string>, b: nat)
    requires b < |blocks|
    ensures Papers(blocks[..b + 1]) == Papers(blocks[..b]) + Somes([ParseText(blocks[b])])
  {
    assert blocks[..b + 1] == blocks[..b] + [blocks[b]];
    PapersAppend(blocks[..b], [blocks[b]]);
    assert Parses([blocks[b]]) == [ParseText(blocks[b])];
  }

  /** The inner loop of `fetch_paper_data` (lines 143-146): parse every block and keep
      the results that are not None. */
  method ParseBlocks(blocks: seq<string>) returns (found: seq<Paper>)
    ensures found == Papers(blocks)
  {
    found := [];
    var b := 0;
    while b < |blocks|
      invariant 0 <= b <= |blocks| && found == Papers(blocks[..b])
    {
      var val := ParseText(blocks[b]);
      if val.Some? {
        found := found + [val.value];
      }
      PapersSnoc(blocks, b);
      assert Somes([val]) == (if val.Some? then [val.value] else []) by {
        assert [val][..0] == [];
      }
      b := b + 1;
    }
    assert blocks[..b] == blocks;
  }

  /** `str(key)` of every key, in order: the uids the notification lists. */
  function UidStrings(keys: seq<nat>): (r: seq<string>)
    ensures |r| == |keys|
    ensures forall i :: 0 <= i < |r| ==> r[i] != [] && AllDigits(r[i])
  {
    seq(|keys|, i requires 0 <= i < |keys| => DecimalString(keys[i]))
  }

  /** One more key adds its string at the end. */
  lemma UidStringsSnoc(keys: seq<nat>, n: nat)
    requires n < |keys|
    ensures UidStrings(keys[..n + 1]) == UidStrings(keys[..n]) + [DecimalString(keys[n])]
  {
  }

  /** Each listed uid reads back as the key it was made from. */
  lemma UidStringsReadBack(keys: seq<nat>, i: nat)
    requires i < |keys|
    ensures ParseInt(UidStrings(keys)[i]) == Some(keys[i] as int)
  {
    ParseDecimal(keys[i]);
  }

  /** Every key has a text and a subject. */
  ghost predicate Keyed(keys: seq<nat>, texts: Dict<seq<string>>, subjects: Dict<Option<string>>) {
    forall k :: k in keys ==> k in texts.entries && k in subjects.entries
  }

  lemma KeyedPrefix(keys: seq<nat>, n: nat, texts: Dict<seq<string>>, subjects: Dict<Option<string>>)
    requires n <= |keys| && Keyed(keys, texts, subjects)
    ensures Keyed(keys[..n], texts, subjects)
  {
    forall k | k in keys[..n] ensures k in keys {
    }
  }

  /** `(subjects[key], papers)`: what the loop stores for one message. */
  function MessageData(key: nat, texts: Dict<seq<string>>, subjects: Dict<Option<string>>): (r: (Option<string>, seq<Paper>))
    requires key in texts.entries && key in subjects.entries
    ensures r.0 == subjects.entries[key]
    ensures |r.1| <= |texts.entries[key]|
  {
    (subjects.entries[key], Papers(texts.entries[key]))
  }

  /** What the aggregation loop has built after visiting keys: each visited key mapped to
      its subject and its papers. */
  function Aggregated(keys: seq<nat>, texts: Dict<seq<string>>, subjects: Dict<Option<string>>): (r: Dict<(Option<string>, seq<Paper>)>)
    requires Keyed(keys, texts, subjects)
    ensures forall k :: k in r.entries <==> k in keys
  {
    if keys == [] then Empty()
    else
      var key := keys[|keys| - 1];
      LastSplit(keys);
      Insert(Aggregated(keys[..|keys| - 1], texts, subjects), key, MessageData(key, texts, subjects))
  }

  /** Every visited key is stored with its subject and its papers; a key visited twice
      gets the same value again. */
  lemma {:induction false} AggregatedValue(keys: seq<nat>, texts: Dict<seq<string>>, subjects: Dict<Option<string>>, k: nat)
    requires Keyed(keys, texts, subjects) && k in keys
    ensures k in Aggregated(keys, texts, subjects).entries
    ensures Aggregated(keys, texts, subjects).entries[k] == MessageData(k, texts, subjects)
    decreases |keys|
  {
    var init := keys[..|keys| - 1];
    KeyedPrefix(keys, |keys| - 1, texts, subjects);
    if k != keys[|keys| - 1] {
      LastSplit(keys);
      assert k in init;
      AggregatedValue(init, texts, subjects, k);
    }
  }

  /** With distinct keys, the loop's dictionary lists exactly the visited keys, in visiting
      order. */
  lemma {:induction false} AggregatedKeys(keys: seq<nat>, texts: Dict<seq<string>>, subjects: Dict<Option<string>>)
    requires Keyed(keys, texts, subjects) && Distinct(keys)
    ensures Valid(Aggregated(keys, texts, subjects))
    ensures Aggregated(keys, texts, subjects).keys == keys
    decreases |keys|
  {
    if keys != [] {
      var init, key := keys[..|keys| - 1], keys[|keys| - 1];
      KeyedPrefix(keys, |keys| - 1, texts, subjects);
      DistinctPrefix(keys, |keys| - 1);
      AggregatedKeys(init, texts, subjects);
      assert key !in init by {
        forall i | 0 <= i < |init| ensures init[i] != key {
          assert init[i] == keys[i];
        }
      }
      LastSplit(keys);
    }
  }

  /** A sequence-equality step kept apart from the Split and dictionary terms of `Aggregated`
      and its lemmas, where the solver would otherwise mix it with their unfoldings. */
  lemma LastSplit(keys: seq<nat>)
    requires keys != []
    ensures keys == keys[..|keys| - 1] + [keys[|keys| - 1]]
  {
  }

  /** A prefix of distinct keys is distinct. */
  lemma DistinctPrefix(keys: seq<nat>, n: nat)
    requires n <= |keys| && Distinct(keys)
    ensures Distinct(keys[..n])
  {
  }

  lemma AggregatedSnoc(keys: seq<nat>, n: nat, texts: Dict<seq<string>>, subjects: Dict<Option<string>>)
    requires n < |keys| && Keyed(keys, texts, subjects)
    ensures Aggregated(keys[..n + 1], texts, subjects) ==
      Insert(Aggregated(keys[..n], texts, subjects), keys[n], MessageData(keys[n], texts, subjects))
  {
    assert keys[..n + 1][..n] == keys[..n];
  }

  /** The aggregation loop of `fetch_paper_data` (lines 140-148): for every message, in
      dictionary order, its subject and the successful parses of its blocks, and the uid
      as text. `subjects[key]` needs every key of the texts to have a subject. */
  method Aggregate(texts: Dict<seq<string>>, subjects: Dict<Option<string>>)
    returns (allData: Dict<(Option<string>, seq<Paper>)>, uids: seq<string>)
    requires Valid(texts) && texts.entries.Keys <= subjects.entries.Keys
    ensures allData == Aggregated(texts.keys, texts, subjects)
    ensures uids == UidStrings(texts.keys)
  {
    allData := Empty();
    uids := [];
    var n := 0;
    assert Keyed(texts.keys, texts, subjects);
    while n < |texts.keys|
      invariant 0 <= n <= |texts.keys|
      invariant Keyed(texts.keys[..n], texts, subjects)
      invariant allData == Aggregated(texts.keys[..n], texts, subjects)
      invariant uids == UidStrings(texts.keys[..n])
    {
      var key := texts.keys[n];
      assert key in texts.keys;
      var found := ParseBlocks(texts.entries[key]);
      AggregatedSnoc(texts.keys, n, texts, subjects);
      KeyedPrefix(texts.keys, n + 1, texts, subjects);
      allData := Insert(allData, key, (subjects.entries[key], found));
      UidStringsSnoc(texts.keys, n);
      uids := uids + [DecimalString(key)];
      n := n + 1;
    }
    assert texts.keys[..n] == texts.keys;
  }

  /** `fetch_paper_data`: scan the mailbox, cut every kept body into blocks, and parse them.
      Returns the per-uid data and the uid list the notification names. */
  method FetchPaperData(listing: seq<Message>, store: IgnoreFile)
    returns (r: Result<(Dict<(Option<string>, seq<Paper>)>, seq<string>), ReadError>)
    modifies store
    ensures old(store.Ignored()).None? ==> r == Err(MalformedIgnoreFile) && store.contents == old(store.contents)
    ensures old(store.Ignored()).Some? ==>
      var sc := ScanFrom(old(store.Ignored()).value, listing, 0);
      store.contents == old(store.contents) + Records(sc.rejected) &&
      (sc.stopped.Some? ==> r == Err(MissingSender(sc.stopped.value))) &&
      (sc.stopped.None? ==> r.Ok? && Valid(r.value.0) && r.value.0.keys == sc.texts.keys && r.value.1 == UidStrings(sc.texts.keys)) &&
      (sc.stopped.None? ==> forall k :: k in sc.texts.entries ==>
        r.Ok? && k in r.value.0.entries && k in sc.subjects.entries &&
        r.value.0.entries[k] == (sc.subjects.entries[k], Papers(ExtractBlocks(sc.texts.entries[k]))))
  {
    ghost var ignored := old(store.Ignored());
    var read := ReadAllMessages(listing, store);
    if read.Err? {
      return Err(read.error);
    }
    var (bodies, subjects) := read.value;
    ScanValid(ignored.value, listing, 0);
    var texts := ExtractTexts(bodies);
    var allData, uids := Aggregate(texts, subjects);
    AggregatedKeys(texts.keys, texts, subjects);
    forall k | k in texts.entries
      ensures k in allData.entries && allData.entries[k] == MessageData(k, texts, subjects)
    {
      AggregatedValue(texts.keys, texts, subjects, k);
    }
    return Ok((allData, uids));
  }
}
