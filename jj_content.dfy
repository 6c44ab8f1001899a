/** What the reference (jj repository) sink writes: slugs, file names, escaped YAML strings,
    the front matter with cross-references, and the commit message
    (syndicate-json-canvas-sinks/src/jj_sink.rs). */
module JjContent {
  import opened Wrappers
  import opened Strings
  import opened Graph

  // ---------------------------------------------------------------------------------------
  // Slugs and file names

  /** The characters a slug keeps. */
  predicate IsSlugChar(c: char)
  {
    IsAlphanumeric(c) || c == '-'
  }

  /** One word of the slug: keep alphanumerics and '-', then lower-case. */
  function CleanWord(w: string): (r: string)
    ensures forall i :: 0 <= i < |r| ==> IsSlugChar(r[i]) && !('A' <= r[i] <= 'Z')
  {
    if w == [] then []
    else (if IsSlugChar(w[0]) then [ToLower(w[0])] else []) + CleanWord(w[1..])
  }

  /** The cleaned words, leaving out those that became empty. */
  function CleanWords(ws: seq<string>): (r: seq<string>)
    ensures forall i :: 0 <= i < |r| ==> |r[i]| > 0
    ensures forall i, j :: 0 <= i < |r| && 0 <= j < |r[i]| ==> IsSlugChar(r[i][j]) && !('A' <= r[i][j] <= 'Z')
  {
    if ws == [] then []
    else
      var w := CleanWord(ws[0]);
      (if w == [] then [] else [w]) + CleanWords(ws[1..])
  }

  /** `generate_slug`: the first eight words, cleaned, non-empty ones joined by '-'. */
  function GenerateSlug(text: string): string
  {
    Join(CleanWords(Take(Words(text), 8)), "-")
  }

  /** A slug holds only lower-case ASCII alphanumerics and '-', so no whitespace. */
  lemma SlugChars(text: string)
    ensures forall i :: 0 <= i < |GenerateSlug(text)| ==>
              IsSlugChar(GenerateSlug(text)[i]) && !('A' <= GenerateSlug(text)[i] <= 'Z')
              && !IsWhitespace(GenerateSlug(text)[i])
  {
    JoinChars(CleanWords(Take(Words(text), 8)), "-", c => IsSlugChar(c) && !('A' <= c <= 'Z'));
  }

  /** Words after the eighth do not affect the slug. */
  lemma SlugIgnoresTail(a: string, c: char, b: string)
    requires IsWhitespace(c) && |Words(a)| >= 8
    ensures GenerateSlug(a + [c] + b) == GenerateSlug(a)
  {
    WordsAppend(a, c, b);
    assert Take(Words(a) + Words(b), 8) == Take(Words(a), 8);
  }

  lemma {:induction false} CleanWordFixed(w: string)
    requires forall i :: 0 <= i < |w| ==> IsSlugChar(w[i]) && !('A' <= w[i] <= 'Z')
    ensures CleanWord(w) == w
  {
    if w != [] {
      CleanWordFixed(w[1..]);
    }
  }

  /** A slug is its own slug: generating a slug is idempotent. */
  lemma SlugIdempotent(text: string)
    ensures GenerateSlug(GenerateSlug(text)) == GenerateSlug(text)
  {
    var s := GenerateSlug(text);
    SlugChars(text);
    if s != [] {
      assert NoWhitespace(s);
      WordsOfWord(s);
      CleanWordFixed(s);
      assert CleanWords([s]) == [s] by {
        assert [s][1..] == [];
      }
    }
  }

  /** `generate_filename`: `<slug>-<node id>.md`. */
  function GenerateFilename(slug: string, id: NodeId): string
  {
    slug + "-" + id + ".md"
  }

  /** A file name determines the slug and the node id once the slug's length is known, and it
      ends in `-<id>.md`, so the same node always maps to a file named after its stable id. */
  lemma FilenameParts(slug: string, id: NodeId)
    ensures var f := GenerateFilename(slug, id);
            && |f| == |slug| + |id| + 4
            && f[..|slug|] == slug && f[|slug|] == '-'
            && f[|slug| + 1..|f| - 3] == id && f[|f| - 3..] == ".md"
  {
  }

  /** Two items with the same slug length get the same file name only when slug and id agree. */
  lemma FilenameInjective(s1: string, id1: NodeId, s2: string, id2: NodeId)
    requires |s1| == |s2|
    requires GenerateFilename(s1, id1) == GenerateFilename(s2, id2)
    ensures s1 == s2 && id1 == id2
  {
    FilenameParts(s1, id1);
    FilenameParts(s2, id2);
  }

  // ---------------------------------------------------------------------------------------
  // YAML string escaping

  /** `s.replace(c, rep)`. */
  function ReplaceChar(s: string, c: char, rep: string): string
  {
    if s == [] then [] else (if s[0] == c then rep else [s[0]]) + ReplaceChar(s[1..], c, rep)
  }

  lemma {:induction false} ReplaceCharAppend(x: string, y: string, c: char, rep: string)
    ensures ReplaceChar(x + y, c, rep) == ReplaceChar(x, c, rep) + ReplaceChar(y, c, rep)
  {
    if x != [] {
      assert (x + y)[0] == x[0] && (x + y)[1..] == x[1..] + y;
      ReplaceCharAppend(x[1..], y, c, rep);
      var head := if x[0] == c then rep else [x[0]];
      assert ReplaceChar(x + y, c, rep) == head + ReplaceChar(x[1..] + y, c, rep);
      assert ReplaceChar(x, c, rep) == head + ReplaceChar(x[1..], c, rep);
    } else {
      assert x + y == y;
    }
  }

  /** `escape_yaml_string`: backslashes are doubled first, then quotes are escaped. */
  function EscapeYamlString(s: string): string
  {
    ReplaceChar(ReplaceChar(s, '\\', "\\\\"), '\"', "\\\"")
  }

  /** How a single character is written inside a double-quoted YAML string. */
  function EscapeChar(c: char): string
  {
    if c == '\\' then "\\\\" else if c == '\"' then "\\\"" else [c]
  }

  /** Reference definition: escape every character on its own, in one pass. */
  function EscapeEach(s: string): string
  {
    if s == [] then [] else EscapeChar(s[0]) + EscapeEach(s[1..])
  }

  /** Because backslashes are replaced before quotes, the backslash that escapes a quote is
      never doubled: the two passes equal one character-wise pass. */
  lemma {:induction false} EscapeIsSinglePass(s: string)
    ensures EscapeYamlString(s) == EscapeEach(s)
  {
    if s != [] {
      EscapeIsSinglePass(s[1..]);
      assert s == [s[0]] + s[1..];
      ReplaceCharAppend([s[0]], s[1..], '\\', "\\\\");
      var first := ReplaceChar([s[0]], '\\', "\\\\");
      ReplaceCharAppend(first, ReplaceChar(s[1..], '\\', "\\\\"), '\"', "\\\"");
      assert ReplaceChar([s[0]], '\\', "\\\\") == (if s[0] == '\\' then "\\\\" else [s[0]]) by {
        assert [s[0]][1..] == [];
      }
      assert ReplaceChar(first, '\"', "\\\"") == EscapeChar(s[0]) by {
        if s[0] == '\\' {
          assert first[1..][1..] == [];
        } else {
          assert first[1..] == [];
        }
      }
    }
  }

  /** Escaping adds one character per backslash and per quote. */
  lemma {:induction false} EscapeLength(s: string)
    ensures |EscapeYamlString(s)| == |s| + Count(s, '\\') + Count(s, '\"')
  {
    EscapeIsSinglePass(s);
    EscapeEachLength(s);
  }

  lemma {:induction false} EscapeEachLength(s: string)
    ensures |EscapeEach(s)| == |s| + Count(s, '\\') + Count(s, '\"')
  {
    if s != [] {
      EscapeEachLength(s[1..]);
    }
  }

  /** Drop each escaping backslash. */
  function Unescape(t: string): string
  {
    if t == [] then []
    else if t[0] == '\\' && |t| >= 2 then [t[1]] + Unescape(t[2..])
    else [t[0]] + Unescape(t[1..])
  }

  /** The body of a valid double-quoted YAML string that escapes only `\` and `"`: no bare
      quote, and every backslash starts `\\` or `\"`. */
  predicate QuotedSafe(t: string)
  {
    if t == [] then true
    else if t[0] == '\\' then |t| >= 2 && (t[1] == '\\' || t[1] == '\"') && QuotedSafe(t[2..])
    else t[0] != '\"' && QuotedSafe(t[1..])
  }

  /** Escaping yields a safe quoted body, and dropping the inserted escapes restores the input. */
  lemma {:induction false} EscapeRoundTrip(s: string)
    ensures QuotedSafe(EscapeYamlString(s))
    ensures Unescape(EscapeYamlString(s)) == s
  {
    EscapeIsSinglePass(s);
    EscapeEachRoundTrip(s);
  }

  lemma {:induction false} EscapeEachRoundTrip(s: string)
    ensures QuotedSafe(EscapeEach(s))
    ensures Unescape(EscapeEach(s)) == s
  {
    if s != [] {
      EscapeEachRoundTrip(s[1..]);
      var t := EscapeEach(s);
      if s[0] == '\\' || s[0] == '\"' {
        assert t[2..] == EscapeEach(s[1..]);
      } else {
        assert t[1..] == EscapeEach(s[1..]);
      }
    }
  }

  // ---------------------------------------------------------------------------------------
  // Front matter

  /** One cross-reference entry of the front matter. */
  datatype Link = Link(linkText: string, href: string)

  /** The link to batch item `id`: its leading words and the path of its file under `/t/`. */
  function LinkTo(id: NodeId, slugs: map<NodeId, string>, items: map<NodeId, SyndicationFormat>): Link
    requires id in slugs && id in items
  {
    Link(FirstWords(items[id].text), "/t/" + slugs[id] + "-" + id + ".md")
  }

  /** The links for neighbour ids that have both a slug and an item, in order; others are skipped. */
  function Links(ids: seq<NodeId>, slugs: map<NodeId, string>, items: map<NodeId, SyndicationFormat>)
    : (r: seq<Link>)
    ensures |r| <= |ids|
  {
    if ids == [] then []
    else
      (if ids[0] in slugs && ids[0] in items then [LinkTo(ids[0], slugs, items)] else [])
      + Links(ids[1..], slugs, items)
  }

  /** Every link comes from a neighbour id present in both maps. */
  lemma {:induction false} LinksSound(
    ids: seq<NodeId>, slugs: map<NodeId, string>, items: map<NodeId, SyndicationFormat>, l: Link)
    requires l in Links(ids, slugs, items)
    ensures exists i :: 0 <= i < |ids| && ids[i] in slugs && ids[i] in items && l == LinkTo(ids[i], slugs, items)
  {
    if !(ids[0] in slugs && ids[0] in items && l == LinkTo(ids[0], slugs, items)) {
      LinksSound(ids[1..], slugs, items, l);
      var i :| 0 <= i < |ids[1..]| && ids[1..][i] in slugs && ids[1..][i] in items
               && l == LinkTo(ids[1..][i], slugs, items);
      assert ids[i + 1] == ids[1..][i];
    }
  }

  /** Every neighbour id present in both maps is linked. */
  lemma {:induction false} LinksComplete(
    ids: seq<NodeId>, slugs: map<NodeId, string>, items: map<NodeId, SyndicationFormat>, i: nat)
    requires i < |ids| && ids[i] in slugs && ids[i] in items
    ensures LinkTo(ids[i], slugs, items) in Links(ids, slugs, items)
  {
    if i > 0 {
      assert ids[1..][i - 1] == ids[i];
      LinksComplete(ids[1..], slugs, items, i - 1);
    }
  }

  /** When every neighbour id is present, the links follow the ids one to one. */
  lemma {:induction false} LinksOneToOne(
    ids: seq<NodeId>, slugs: map<NodeId, string>, items: map<NodeId, SyndicationFormat>)
    requires forall i :: 0 <= i < |ids| ==> ids[i] in slugs && ids[i] in items
    ensures |Links(ids, slugs, items)| == |ids|
    ensures forall i :: 0 <= i < |ids| ==> Links(ids, slugs, items)[i] == LinkTo(ids[i], slugs, items)
  {
    if ids != [] {
      assert forall i :: 0 <= i < |ids[1..]| ==> ids[1..][i] == ids[i + 1];
      LinksOneToOne(ids[1..], slugs, items);
    }
  }

  /** A single neighbour id gives its link when it is present in both maps, and nothing
      otherwise. */
  lemma LinksSingle(id: NodeId, slugs: map<NodeId, string>, items: map<NodeId, SyndicationFormat>)
    ensures Links([id], slugs, items)
            == if id in slugs && id in items then [LinkTo(id, slugs, items)] else []
  {
    assert [id][1..] == [];
  }

  /** The links of a concatenation are the links of each part, in order: every occurrence of
      a present id, a repeated one included, gives one entry at its own position. */
  lemma {:induction false} LinksAppend(
    a: seq<NodeId>, b: seq<NodeId>, slugs: map<NodeId, string>, items: map<NodeId, SyndicationFormat>)
    ensures Links(a + b, slugs, items) == Links(a, slugs, items) + Links(b, slugs, items)
  {
    if a == [] {
      assert a + b == b;
    } else {
      TailOfAppend(a, b);
      LinksAppend(a[1..], b, slugs, items);
      var head := if a[0] in slugs && a[0] in items then [LinkTo(a[0], slugs, items)] else [];
      AppendAssoc(head, Links(a[1..], slugs, items), Links(b, slugs, items));
    }
  }

  /** No neighbour in the batch, no link. */
  lemma {:induction false} LinksEmpty(
    ids: seq<NodeId>, slugs: map<NodeId, string>, items: map<NodeId, SyndicationFormat>)
    requires forall i :: 0 <= i < |ids| ==> ids[i] !in items
    ensures Links(ids, slugs, items) == []
  {
    if ids != [] {
      assert forall i :: 0 <= i < |ids[1..]| ==> ids[1..][i] == ids[i + 1];
      LinksEmpty(ids[1..], slugs, items);
    }
  }

  const EntryStart: string := "  - link_text: \""
  const HrefStart: string := "\n    href: \""
  const ContextHeader: string := "context_for_this:\n"
  const FurtherHeader: string := "further_thinking:\n"
  const Delimiter: string := "---\n\n"

  /** The two lines of one entry. */
  function EntryText(l: Link): string
  {
    EntryStart + EscapeYamlString(l.linkText) + "\"" + HrefStart + l.href + "\"\n"
  }

  /** The entries of a list, in order (built by appending, as the rendering loop does). */
  function Entries(links: seq<Link>): string
  {
    if links == [] then [] else Entries(links[..|links| - 1]) + EntryText(links[|links| - 1])
  }

  lemma {:induction false} EntriesCons(l: Link, links: seq<Link>)
    ensures Entries([l] + links) == EntryText(l) + Entries(links)
    decreases |links|
  {
    if links != [] {
      var init := links[..|links| - 1];
      assert ([l] + links)[..|links|] == [l] + init;
      EntriesCons(l, init);
    }
  }

  /** A list section: its header and entries, or nothing at all when the list is empty. */
  function Section(header: string, links: seq<Link>): string
  {
    if links == [] then [] else header + Entries(links)
  }

  /** The first three lines: the opening delimiter, the escaped title and the date. */
  function TitleBlock(title: string, date: string): string
  {
    "---\ntitle: \"" + EscapeYamlString(title) + "\"\ndate: " + date + "\n"
  }

  /** The file `generate_file_contents` renders for `item`, dated `date`. */
  function FileContents(item: SyndicationFormat, slugs: map<NodeId, string>,
                        items: map<NodeId, SyndicationFormat>, date: string): string
  {
    TitleBlock(FirstWords(item.text), date)
    + (Section(ContextHeader, Links(item.inNeighborIds, slugs, items))
       + Section(FurtherHeader, Links(item.outNeighborIds, slugs, items))
       + Delimiter + item.text)
  }

  /** With no linked neighbour in the batch, neither list header is written. */
  lemma NoSectionsWithoutLinks(item: SyndicationFormat, slugs: map<NodeId, string>,
                               items: map<NodeId, SyndicationFormat>, date: string)
    requires forall i :: 0 <= i < |item.inNeighborIds| ==> item.inNeighborIds[i] !in items
    requires forall i :: 0 <= i < |item.outNeighborIds| ==> item.outNeighborIds[i] !in items
    ensures FileContents(item, slugs, items, date) == TitleBlock(FirstWords(item.text), date) + Delimiter + item.text
  {
    LinksEmpty(item.inNeighborIds, slugs, items);
    LinksEmpty(item.outNeighborIds, slugs, items);
    AppendSplit(Delimiter + item.text, []);
    AppendSplit(Delimiter, []);
    AppendAssoc(TitleBlock(FirstWords(item.text), date), Delimiter, item.text);
  }

  // ---------------------------------------------------------------------------------------
  // Reading a rendered file back

  /** A front matter as a reader sees it. */
  datatype Document = Document(title: string, date: string, contextForThis: seq<Link>,
                               furtherThinking: seq<Link>, body: string)

  predicate StartsWith(s: string, p: string)
  {
    |p| <= |s| && s[..|p|] == p
  }

  function Expect(p: string, s: string): (r: Option<string>)
    ensures r.Some? ==> |r.value| == |s| - |p|
  {
    if StartsWith(s, p) then Some(s[|p|..]) else None
  }

  /** Read a double-quoted string body up to its closing quote, undoing the escapes; returns
      the value and what follows the quote. */
  function ParseQuoted(s: string): (r: Option<(string, string)>)
    ensures r.Some? ==> |r.value.1| < |s|
  {
    if s == [] then None
    else if s[0] == '\"' then Some(([], s[1..]))
    else if s[0] == '\\' then
      if |s| < 2 then None
      else
        var (v, rest) :- ParseQuoted(s[2..]);
        Some(([s[1]] + v, rest))
    else
      var (v, rest) :- ParseQuoted(s[1..]);
      Some(([s[0]] + v, rest))
  }

  /** Read raw characters up to `stop`; returns them and what follows `stop`. */
  function ParseUntil(s: string, stop: char): (r: Option<(string, string)>)
    ensures r.Some? ==> |r.value.1| < |s|
  {
    if s == [] then None
    else if s[0] == stop then Some(([], s[1..]))
    else
      var (v, rest) :- ParseUntil(s[1..], stop);
      Some(([s[0]] + v, rest))
  }

  function ParseEntry(s: string): (r: Option<(Link, string)>)
    ensures r.Some? ==> |r.value.1| < |s|
  {
    var s1 :- Expect(EntryStart, s);
    var (text, s2) :- ParseQuoted(s1);
    var s3 :- Expect(HrefStart, s2);
    var (href, s4) :- ParseUntil(s3, '\"');
    var s5 :- Expect("\n", s4);
    Some((Link(text, href), s5))
  }

  /** Read entries for as long as the input starts one. */
  function ParseEntries(s: string): (seq<Link>, string)
    decreases |s|
  {
    if StartsWith(s, EntryStart) then
      match ParseEntry(s)
      case Some((l, rest)) =>
        var (ls, r) := ParseEntries(rest);
        ([l] + ls, r)
      case None => ([], s)
    else ([], s)
  }

  /** An optional list section; a header without entries is malformed. */
  function ParseSection(header: string, s: string): Option<(seq<Link>, string)>
  {
    if StartsWith(s, header) then
      var (ls, rest) := ParseEntries(s[|header|..]);
      if ls == [] then None else Some((ls, rest))
    else Some(([], s))
  }

  function ParseDocument(s: string): Option<Document>
  {
    var s1 :- Expect("---\ntitle: \"", s);
    var (title, s2) :- ParseQuoted(s1);
    var s3 :- Expect("\ndate: ", s2);
    var (date, s4) :- ParseUntil(s3, '\n');
    var (context, further, body) :- ParseSections(s4);
    Some(Document(title, date, context, further, body))
  }

  /** The two optional link lists, the closing delimiter and the body. */
  function ParseSections(s: string): Option<(seq<Link>, seq<Link>, string)>
  {
    var (context, s1) :- ParseSection(ContextHeader, s);
    var (further, s2) :- ParseSection(FurtherHeader, s1);
    var body :- Expect(Delimiter, s2);
    Some((context, further, body))
  }

  lemma {:induction false} ParseQuotedEscaped(v: string, rest: string)
    ensures ParseQuoted(EscapeEach(v) + "\"" + rest) == Some((v, rest))
  {
    var s := EscapeEach(v) + "\"" + rest;
    if v == [] {
      assert s == "\"" + rest;
    } else {
      ParseQuotedEscaped(v[1..], rest);
      assert [v[0]] + v[1..] == v;
      if v[0] == '\\' || v[0] == '\"' {
        assert s[0] == '\\' && s[1] == v[0];
        assert s[2..] == EscapeEach(v[1..]) + "\"" + rest;
      } else {
        assert s[0] == v[0];
        assert s[1..] == EscapeEach(v[1..]) + "\"" + rest;
      }
    }
  }

  lemma {:induction false} ParseUntilNoStop(v: string, stop: char, rest: string)
    requires stop !in v
    ensures ParseUntil(v + [stop] + rest, stop) == Some((v, rest))
  {
    var s := v + [stop] + rest;
    if v == [] {
      assert s[0] == stop && s[1..] == rest;
    } else {
      assert s[0] == v[0] && s[1..] == v[1..] + [stop] + rest;
      ParseUntilNoStop(v[1..], stop, rest);
      assert [v[0]] + v[1..] == v;
    }
  }

  lemma EntryTextParts(e: string, href: string, rest: string)
    ensures EntryStart + e + "\"" + HrefStart + href + "\"\n" + rest
         == EntryStart + (e + "\"" + (HrefStart + (href + (['\"'] + ("\n" + rest)))))
  {
  }

  lemma ParseEntryText(l: Link, rest: string)
    requires '\"' !in l.href
    ensures ParseEntry(EntryText(l) + rest) == Some((l, rest))
  {
    EscapeIsSinglePass(l.linkText);
    var s5 := "\n" + rest;
    var s4 := ['\"'] + s5;
    var s3 := l.href + s4;
    var s2 := HrefStart + s3;
    var s1 := EscapeEach(l.linkText) + "\"" + s2;
    EntryTextParts(EscapeEach(l.linkText), l.href, rest);
    assert Expect(EntryStart, EntryStart + s1) == Some(s1);
    ParseQuotedEscaped(l.linkText, s2);
    assert Expect(HrefStart, s2) == Some(s3);
    ParseUntilNoStop(l.href, '\"', s5);
    assert l.href + ['\"'] + s5 == s3;
    assert Expect("\n", s5) == Some(rest);
  }

  /** Neither list header nor the closing delimiter starts an entry. */
  lemma NotEntryStart(rest: string)
    requires StartsWith(rest, FurtherHeader) || StartsWith(rest, Delimiter)
    ensures !StartsWith(rest, EntryStart)
  {
    if StartsWith(rest, FurtherHeader) {
      assert rest[0] == 'f';
    } else {
      assert rest[0] == '-';
    }
  }

  lemma {:induction false} ParseEntriesText(links: seq<Link>, rest: string)
    requires forall i :: 0 <= i < |links| ==> '\"' !in links[i].href
    requires !StartsWith(rest, EntryStart)
    ensures ParseEntries(Entries(links) + rest) == (links, rest)
  {
    if links != [] {
      var l, tail := links[0], links[1..];
      assert links == [l] + tail;
      EntriesCons(l, tail);
      var s := Entries(links) + rest;
      assert s == EntryText(l) + (Entries(tail) + rest);
      assert StartsWith(s, EntryStart) by {
        assert s[..|EntryStart|] == EntryText(l)[..|EntryStart|];
      }
      ParseEntryText(l, Entries(tail) + rest);
      ParseEntriesText(tail, rest);
    } else {
      assert Entries(links) + rest == rest;
    }
  }

  lemma ParseSectionText(header: string, links: seq<Link>, rest: string)
    requires forall i :: 0 <= i < |links| ==> '\"' !in links[i].href
    requires !StartsWith(rest, header) && !StartsWith(rest, EntryStart)
    ensures ParseSection(header, Section(header, links) + rest) == Some((links, rest))
  {
    if links == [] {
      assert Section(header, links) + rest == rest;
    } else {
      var s := header + (Entries(links) + rest);
      assert Section(header, links) + rest == s;
      assert s[..|header|] == header && s[|header|..] == Entries(links) + rest;
      ParseEntriesText(links, rest);
    }
  }

  /** What may follow a section starts neither an entry nor the context header. */
  lemma AfterSection(rest: string)
    requires StartsWith(rest, FurtherHeader) || StartsWith(rest, Delimiter)
    ensures !StartsWith(rest, EntryStart) && !StartsWith(rest, ContextHeader)
  {
    if StartsWith(rest, FurtherHeader) {
      assert rest[0] == 'f';
    } else {
      assert rest[0] == '-';
    }
  }

  lemma AfterFurther(rest: string)
    requires StartsWith(rest, Delimiter)
    ensures !StartsWith(rest, EntryStart) && !StartsWith(rest, FurtherHeader)
  {
    assert rest[0] == '-';
  }

  /** Every href of a link list avoids the quote character when ids and slugs do. */
  lemma LinksHrefsQuoteFree(ids: seq<NodeId>, slugs: map<NodeId, string>, items: map<NodeId, SyndicationFormat>)
    requires forall k :: k in items ==> '\"' !in k
    requires forall k :: k in slugs ==> '\"' !in slugs[k]
    ensures forall i :: 0 <= i < |Links(ids, slugs, items)| ==> '\"' !in Links(ids, slugs, items)[i].href
  {
    var ls := Links(ids, slugs, items);
    forall i | 0 <= i < |ls| ensures '\"' !in ls[i].href {
      LinksSound(ids, slugs, items, ls[i]);
    }
  }

  /** The further-thinking list is read back and leaves the closing delimiter. */
  lemma FurtherPart(ft: seq<Link>, s6: string)
    requires forall i :: 0 <= i < |ft| ==> '\"' !in ft[i].href
    requires StartsWith(s6, Delimiter)
    ensures ParseSection(FurtherHeader, Section(FurtherHeader, ft) + s6) == Some((ft, s6))
    ensures StartsWith(Section(FurtherHeader, ft) + s6, FurtherHeader)
         || StartsWith(Section(FurtherHeader, ft) + s6, Delimiter)
  {
    AfterFurther(s6);
    ParseSectionText(FurtherHeader, ft, s6);
    SectionStart(FurtherHeader, ft, s6);
  }

  /** A section starts with its header, unless it is empty. */
  lemma SectionStart(header: string, links: seq<Link>, rest: string)
    ensures links != [] ==> StartsWith(Section(header, links) + rest, header)
    ensures links == [] ==> Section(header, links) + rest == rest
  {
    if links != [] {
      AppendAssoc(header, Entries(links), rest);
      AppendSplit(header, Entries(links) + rest);
    } else {
      AppendSplit(rest, []);
    }
  }

  /** Reading back the link lists and body assembled from their parts yields the parts. */
  lemma ParseSectionsParts(ctx: seq<Link>, ft: seq<Link>, body: string)
    requires forall i :: 0 <= i < |ctx| ==> '\"' !in ctx[i].href
    requires forall i :: 0 <= i < |ft| ==> '\"' !in ft[i].href
    ensures ParseSections(Section(ContextHeader, ctx) + Section(FurtherHeader, ft) + Delimiter + body)
         == Some((ctx, ft, body))
  {
    var s6 := Delimiter + body;
    assert StartsWith(s6, Delimiter);
    var s5 := Section(FurtherHeader, ft) + s6;
    var s4 := Section(ContextHeader, ctx) + s5;
    assert Section(ContextHeader, ctx) + Section(FurtherHeader, ft) + Delimiter + body == s4;
    FurtherPart(ft, s6);
    AfterSection(s5);
    ParseSectionText(ContextHeader, ctx, s5);
    assert Expect(Delimiter, s6) == Some(body);
  }

  lemma TitleBlockParts(e: string, date: string, rest: string)
    ensures "---\ntitle: \"" + e + "\"\ndate: " + date + "\n" + rest
         == "---\ntitle: \"" + (e + "\"" + ("\ndate: " + (date + ['\n'] + rest)))
  {
  }

  /** Reading back a front matter assembled from its parts yields the parts. */
  lemma ParseDocumentParts(title: string, date: string, rest: string,
                            ctx: seq<Link>, ft: seq<Link>, body: string)
    requires '\n' !in date
    requires ParseSections(rest) == Some((ctx, ft, body))
    ensures ParseDocument(TitleBlock(title, date) + rest) == Some(Document(title, date, ctx, ft, body))
  {
    var s3 := date + ['\n'] + rest;
    var s2 := "\ndate: " + s3;
    var s1 := EscapeEach(title) + "\"" + s2;
    var s := "---\ntitle: \"" + s1;
    EscapeIsSinglePass(title);
    TitleBlockParts(EscapeEach(title), date, rest);
    assert Expect("---\ntitle: \"", s) == Some(s1);
    ParseQuotedEscaped(title, s2);
    assert Expect("\ndate: ", s2) == Some(s3);
    ParseUntilNoStop(date, '\n', rest);
  }

  /** Reading a rendered file back yields its title (the first eight words), its date, the
      two link lists and the unmodified text: the front matter is well formed and carries
      exactly the links of the item's neighbours in the batch, and a list header is present
      exactly when its list is non-empty. Holds when the date is one line and node ids and
      slugs contain no double quote (hrefs are written unescaped). */
  lemma FileContentsRoundTrip(item: SyndicationFormat, slugs: map<NodeId, string>,
                              items: map<NodeId, SyndicationFormat>, date: string)
    requires '\n' !in date
    requires forall k :: k in items ==> '\"' !in k
    requires forall k :: k in slugs ==> '\"' !in slugs[k]
    ensures ParseDocument(FileContents(item, slugs, items, date))
         == Some(Document(FirstWords(item.text), date,
                          Links(item.inNeighborIds, slugs, items),
                          Links(item.outNeighborIds, slugs, items), item.text))
  {
    LinksHrefsQuoteFree(item.inNeighborIds, slugs, items);
    LinksHrefsQuoteFree(item.outNeighborIds, slugs, items);
    var ctx := Links(item.inNeighborIds, slugs, items);
    var ft := Links(item.outNeighborIds, slugs, items);
    var rest := Section(ContextHeader, ctx) + Section(FurtherHeader, ft) + Delimiter + item.text;
    ParseSectionsParts(ctx, ft, item.text);
    ParseDocumentParts(FirstWords(item.text), date, rest, ctx, ft, item.text);
  }

  lemma FilenameOfLink(id: NodeId, slug: string)
    ensures "/t/" + slug + "-" + id + ".md" == "/t/" + GenerateFilename(slug, id)
  {
    assert "/t/" + slug + "-" + id + ".md" == "/t/" + (slug + "-" + id + ".md");
  }

  /** Cross-reference accuracy: a batch neighbour on the in-list is linked under
      `context_for_this`, one on the out-list under `further_thinking`, each pointing at the
      neighbour's own file. */
  lemma CrossReference(item: SyndicationFormat, slugs: map<NodeId, string>,
                       items: map<NodeId, SyndicationFormat>, date: string, a: NodeId)
    requires '\n' !in date
    requires forall k :: k in items ==> '\"' !in k
    requires forall k :: k in slugs ==> '\"' !in slugs[k]
    requires a in slugs && a in items
    ensures var doc := ParseDocument(FileContents(item, slugs, items, date));
            && doc.Some?
            && (a in item.inNeighborIds ==> LinkTo(a, slugs, items) in doc.value.contextForThis)
            && (a in item.outNeighborIds ==> LinkTo(a, slugs, items) in doc.value.furtherThinking)
            && LinkTo(a, slugs, items).href == "/t/" + GenerateFilename(slugs[a], a)
  {
    FileContentsRoundTrip(item, slugs, items, date);
    var link := LinkTo(a, slugs, items);
    var ctx := Links(item.inNeighborIds, slugs, items);
    var ft := Links(item.outNeighborIds, slugs, items);
    var doc := Document(FirstWords(item.text), date, ctx, ft, item.text);
    assert ParseDocument(FileContents(item, slugs, items, date)) == Some(doc);
    if a in item.inNeighborIds {
      var i :| 0 <= i < |item.inNeighborIds| && item.inNeighborIds[i] == a;
      LinksComplete(item.inNeighborIds, slugs, items, i);
      assert link in ctx;
    }
    if a in item.outNeighborIds {
      var i :| 0 <= i < |item.outNeighborIds| && item.outNeighborIds[i] == a;
      LinksComplete(item.outNeighborIds, slugs, items, i);
      assert link in ft;
    }
    FilenameOfLink(a, slugs[a]);
  }

  /** The rendering of `generate_file_contents`, appending to the front matter line by line. */
  method GenerateFileContents(item: SyndicationFormat, slug: string, slugs: map<NodeId, string>,
                              allItems: map<NodeId, SyndicationFormat>, date: string)
    returns (contents: string)
    ensures contents == FileContents(item, slugs, allItems, date)
  {
    var title := FirstWords(item.text);
    var contextForThis := Links(item.inNeighborIds, slugs, allItems);
    var furtherThinking := Links(item.outNeighborIds, slugs, allItems);
    var frontmatter := TitleBlock(title, date);
    ghost var afterTitle := frontmatter;
    ghost var ctx := Section(ContextHeader, contextForThis);
    ghost var ft := Section(FurtherHeader, furtherThinking);
    frontmatter := AppendSection(frontmatter, ContextHeader, contextForThis);
    frontmatter := AppendSection(frontmatter, FurtherHeader, furtherThinking);
    frontmatter := frontmatter + Delimiter;
    contents := frontmatter + item.text;
    AppendAssoc(afterTitle, ctx, ft);
    AppendAssoc(afterTitle, ctx + ft, Delimiter);
    AppendAssoc(afterTitle, ctx + ft + Delimiter, item.text);
  }

  /** A list section is written only when its list is non-empty: the header line, then
      the entries. */
  method AppendSection(frontmatter: string, header: string, links: seq<Link>) returns (r: string)
    ensures r == frontmatter + Section(header, links)
  {
    r := frontmatter;
    if links != [] {
      r := r + header;
      r := AppendEntries(r, links);
      AppendAssoc(frontmatter, header, Entries(links));
    } else {
      AppendSplit(frontmatter, []);
    }
  }

  /** The two lines pushed for an entry make up its text. */
  lemma EntryLines(text: string, href: string)
    ensures "  - link_text: \"" + text + "\"\n" + ("    href: \"" + href + "\"\n")
         == EntryStart + text + "\"" + HrefStart + href + "\"\n"
  {
  }

  /** The `for` loop that pushes each entry's two lines. */
  method AppendEntries(frontmatter: string, links: seq<Link>) returns (r: string)
    ensures r == frontmatter + Entries(links)
  {
    r := frontmatter;
    var i := 0;
    while i < |links|
      invariant 0 <= i <= |links|
      invariant r == frontmatter + Entries(links[..i])
    {
      var l := links[i];
      var linkLine := "  - link_text: \"" + EscapeYamlString(l.linkText) + "\"\n";
      var hrefLine := "    href: \"" + l.href + "\"\n";
      EntryLines(EscapeYamlString(l.linkText), l.href);
      assert links[..i + 1][..i] == links[..i];
      assert Entries(links[..i + 1]) == Entries(links[..i]) + EntryText(l);
      AppendAssoc(r, linkLine, hrefLine);
      AppendAssoc(frontmatter, Entries(links[..i]), EntryText(l));
      r := r + linkLine;
      r := r + hrefLine;
      i := i + 1;
    }
    assert links[..|links|] == links;
  }

  // ---------------------------------------------------------------------------------------
  // Commit message

  /** The first 50 characters followed by "..." when the text is longer, the text otherwise. */
  function Preview(text: string): (r: string)
    ensures |text| <= 50 ==> r == text
    ensures |text| > 50 ==> |r| == 53 && r[..50] == text[..50] && r[50..] == "..."
  {
    if |text| > 50 then text[..50] + "..." else text
  }

  /** The commit message of a batch whose keys are visited in `order`. */
  function CommitMessage(items: map<NodeId, SyndicationFormat>, slugs: map<NodeId, string>,
                         order: seq<NodeId>): string
    requires IsEnumeration(order, items.Keys)
    requires |items| == 1 ==> forall k :: k in items ==> items[k].id in slugs
  {
    EnumerationLength(order, items.Keys);
    if |items| == 1 then
      var item := items[order[0]];
      "Adding microblog `" + slugs[item.id] + "`\n\n" + Preview(item.text)
    else
      "Update microblogs (" + NatToString(|items|) + " posts)"
  }

  /** A one-item batch names the item's slug and previews its text; a larger batch states its
      size in decimal. */
  lemma CommitMessageForms(items: map<NodeId, SyndicationFormat>, slugs: map<NodeId, string>,
                           order: seq<NodeId>)
    requires IsEnumeration(order, items.Keys)
    requires |items| == 1 ==> forall k :: k in items ==> items[k].id in slugs
    ensures |items| == 1 ==>
              exists k :: k in items && items.Keys == {k}
                && CommitMessage(items, slugs, order)
                   == "Adding microblog `" + slugs[items[k].id] + "`\n\n" + Preview(items[k].text)
    ensures |items| != 1 ==>
              exists digits ::
                && |digits| > 0 && (forall i :: 0 <= i < |digits| ==> '0' <= digits[i] <= '9')
                && (digits[0] == '0' ==> |digits| == 1) && DigitsValue(digits) == |items|
                && CommitMessage(items, slugs, order) == "Update microblogs (" + digits + " posts)"
  {
    EnumerationLength(order, items.Keys);
    if |items| != 1 {
      NatToStringValue(|items|);
    } else {
      var k := order[0];
      assert items.Keys == {k} by {
        forall j | j in items.Keys ensures j == k {
          var i :| 0 <= i < |order| && order[i] == j;
        }
      }
    }
  }
}
