/** Dovecot's SNI file: a heading and one brace-delimited block per mail host, rewritten in place by
    `bzpanel mail-ssl`. Also the vocabulary it shares with the Postfix map. */
module DovecotSni {
  import opened Text
  import opened Lists

  datatype Entry = Entry(host: string, cert: string, key: string)

  /** Host names and paths that the file formats can carry. */
  predicate Clean(s: string) {
    Token(s) && '{' !in s && '}' !in s
  }

  predicate CleanEntry(e: Entry) {
    Clean(e.host) && Clean(e.cert) && Clean(e.key)
  }

  // ---- the Dovecot file ------------------------------------------------

  const BRACES: set<char> := {'{', '}'}
  const NEWLINE: set<char> := {'\n'}

  const CERT_FIELD := "  ssl_cert = <"
  const KEY_FIELD := "  ssl_key  = <"

  function OpenTag(host: string): string {
    "local_name " + host + " {"
  }

  /** A block after its opening brace, up to and including the closing one. */
  function Inside(e: Entry): string {
    "\n" + CERT_FIELD + e.cert + "\n" + KEY_FIELD + e.key + "\n}"
  }

  /** A block without its final newline. */
  function Block(e: Entry): string {
    OpenTag(e.host) + Inside(e)
  }

  /** Position of the brace that brings the nesting depth back to zero, scanning from `i`, or -1. */
  function ClosingBrace(s: string, i: nat, depth: int): (r: int)
    requires i <= |s|
    ensures -1 <= r < |s|
    decreases |s| - i
  {
    if i == |s| then -1
    else if s[i] == '{' then ClosingBrace(s, i + 1, depth + 1)
    else if s[i] == '}' then (if depth == 1 then i else ClosingBrace(s, i + 1, depth - 1))
    else ClosingBrace(s, i + 1, depth)
  }

  /** The text with the first block opened by `OpenTag(host)` cut out and its tail normalised. */
  function WithoutBlock(src: string, host: string): string {
    var at := Index(src, OpenTag(host));
    if at < 0 then src
    else
      var end := ClosingBrace(src[at..], 0, 0);
      if end > 0 then TrimRight(src[..at] + src[at + end + 1..], NEWLINE) + "\n\n" else src
  }

  /** The whole rewritten file: a file that does not start with `mark` is started afresh. */
  function DovecotText(mark: string, header: string, prior: string, e: Entry): string {
    Appended(WithoutBlock(if mark <= prior then prior else header, e.host), e)
  }

  function Appended(src: string, e: Entry): string {
    TrimRight(src, NEWLINE) + "\n\n" + Block(e) + "\n"
  }

  method FindClosingBrace(rest: string) returns (end: int)
    ensures end == ClosingBrace(rest, 0, 0)
  {
    var depth, i := 0, 0;
    end := -1;
    while i < |rest|
      invariant 0 <= i <= |rest|
      invariant ClosingBrace(rest, 0, 0) == ClosingBrace(rest, i, depth)
      invariant end == -1
    {
      if rest[i] == '{' {
        depth := depth + 1;
      } else if rest[i] == '}' {
        depth := depth - 1;
        if depth == 0 {
          end := i;
          break;
        }
      }
      i := i + 1;
    }
  }

  method CutBlock(src: string, host: string) returns (out: string)
    ensures out == WithoutBlock(src, host)
  {
    out := src;
    var at := Index(src, OpenTag(host));
    if at >= 0 {
      var end := FindClosingBrace(src[at..]);
      if end > 0 {
        out := src[..at] + src[at + end + 1..];
        out := TrimRight(out, NEWLINE) + "\n\n";
      }
    }
  }

  /** In a file the panel has written, or one it does not own yet, an upsert leaves a panel file that reads back as the
      other hosts' entries in their order with this one last. */
  method DovecotUpsert(mark: string, heading: string, prior: string, e: Entry) returns (out: string)
    ensures out == DovecotText(mark, heading + "\n\n", prior, e)
    ensures exists before :: out == before + FourLines(e.host, e.cert, e.key)
    ensures Heading(mark, heading) && CleanEntry(e) && (PanelFile(heading, prior) || !(mark <= prior)) ==>
              && PanelFile(heading, out)
              && OnePerHost(DovecotEntries(mark, out))
              && DovecotEntries(mark, out) == Others(DovecotEntries(mark, prior), e.host) + [e]
  {
    hide *;
    var header := heading + "\n\n";
    DovecotTextIs(mark, header, prior, e);
    if Heading(mark, heading) && CleanEntry(e) && (PanelFile(heading, prior) || !(mark <= prior)) {
      UpsertEntries(mark, heading, prior, e);
    }
    var src := prior;
    if !(mark <= src) {
      src := header;
    }
    src := CutBlock(src, e.host);
    out := Appended(src, e);
    EndsWithBlock(src, e);
  }

  /** The four lines of a block, spelled out. */
  function FourLines(host: string, cert: string, key: string): string {
    "local_name " + host + " {\n" + ("  ssl_cert = <" + cert + "\n") + ("  ssl_key  = <" + key + "\n") + "}\n"
  }

  /** Whatever the file held, it now ends with the host's block, certificate and key under their own settings. */
  lemma EndsWithBlock(src: string, e: Entry)
    ensures exists before :: Appended(src, e) == before + FourLines(e.host, e.cert, e.key)
  {
    var before := TrimRight(src, NEWLINE) + "\n\n";
    BlockLinesAre(e.host, e.cert, e.key);
    assert Appended(src, e) == before + (Block(e) + "\n");
  }

  lemma BlockLinesAre(host: string, cert: string, key: string)
    ensures Block(Entry(host, cert, key)) + "\n" == FourLines(host, cert, key)
  {
    BlockParts("local_name " + host, "  ssl_cert = <" + cert, "  ssl_key  = <" + key);
    assert Inside(Entry(host, cert, key)) == "\n" + ("  ssl_cert = <" + cert) + "\n" + ("  ssl_key  = <" + key) + "\n}";
  }

  lemma BlockParts(a: string, b: string, c: string)
    ensures a + " {" + ("\n" + b + "\n" + c + "\n}") + "\n" == a + " {\n" + (b + "\n") + (c + "\n") + "}\n"
  {
    assert " {\n" == " {" + "\n" && "}\n" == "}" + "\n" && "\n}" == "\n" + "}";
  }

  lemma DovecotTextIs(mark: string, header: string, prior: string, e: Entry)
    ensures DovecotText(mark, header, prior, e)
         == Appended(WithoutBlock(if mark <= prior then prior else header, e.host), e)
  {
  }

  // ---- reading the Dovecot file back -----------------------------------

  predicate OpensBlock(line: string) {
    |line| >= 13 && "local_name " <= line && HasSuffix(line, " {")
  }

  /** What Dovecot takes the certificate and the key from. */
  const CERT_SETTING := "  ssl_cert = <"
  const KEY_SETTING := "  ssl_key  = <"

  /** The blocks of a file, line by line, independent of how it was written. */
  function ParseBlocks(lines: seq<string>): seq<Entry> {
    if |lines| < 4 then []
    else if OpensBlock(lines[0]) && CERT_SETTING <= lines[1] && KEY_SETTING <= lines[2] && lines[3] == "}" then
      [Entry(lines[0][11..|lines[0]| - 2], lines[1][|CERT_SETTING|..], lines[2][|KEY_SETTING|..])]
      + ParseBlocks(lines[4..])
    else ParseBlocks(lines[1..])
  }

  /** The blocks the panel manages: none in a file it does not own. */
  function DovecotEntries(mark: string, text: string): seq<Entry> {
    if mark <= text then ParseBlocks(Split(text, '\n')) else []
  }

  function Keeper(host: string): Entry -> seq<Entry> {
    (e: Entry) => if e.host == host then [] else [e]
  }

  /** The entries of all hosts but one, in order. */
  function Others(es: seq<Entry>, host: string): seq<Entry> {
    FlatMap(Keeper(host), es)
  }

  // ---- the layout the panel keeps --------------------------------------

  /** A block preceded by `gap` newlines. */
  datatype Chunk = Chunk(gap: nat, entry: Entry)

  function Newlines(n: nat): string {
    seq(n, _ => '\n')
  }

  function Chunks(cs: seq<Chunk>): string {
    if cs == [] then "" else Newlines(cs[0].gap) + Block(cs[0].entry) + Chunks(cs[1..])
  }

  function Entries(cs: seq<Chunk>): seq<Entry> {
    if cs == [] then [] else [cs[0].entry] + Entries(cs[1..])
  }

  predicate Spaced(cs: seq<Chunk>) {
    forall c <- cs :: c.gap >= 2 && CleanEntry(c.entry)
  }

  /** At most one entry per host. */
  predicate OnePerHost(es: seq<Entry>) {
    es != [] ==> (forall f <- es[1..] :: f.host != es[0].host) && OnePerHost(es[1..])
  }

  ghost predicate WellFormed(cs: seq<Chunk>) {
    Spaced(cs) && OnePerHost(Entries(cs)) && (cs != [] ==> cs[|cs| - 1].gap == 2)
  }

  /** A file the panel wrote: the heading, then blocks with at least one blank line before each. */
  ghost predicate Laid(heading: string, text: string, cs: seq<Chunk>) {
    WellFormed(cs) && text == heading + Chunks(cs) + "\n"
  }

  lemma {:induction false} ChunksConcat(a: seq<Chunk>, b: seq<Chunk>)
    ensures Chunks(a + b) == Chunks(a) + Chunks(b)
  {
    if a == [] {
      assert a + b == b;
    } else {
      hide Newlines, Block;
      ChunksConcat(a[1..], b);
      assert (a + b)[1..] == a[1..] + b && (a + b)[0] == a[0];
      Assoc(Newlines(a[0].gap) + Block(a[0].entry), Chunks(a[1..]), Chunks(b));
    }
  }

  // ---- finding the block -----------------------------------------------

  lemma SameToken(pre: string, h: string, host: string)
    requires Clean(h) && Clean(host) && HasSuffix(pre + OpenTag(h), OpenTag(host))
    ensures h == host
  {
    hide Clean;
    var name, end := "local_name", " {";
    var text, tag := pre + OpenTag(h), OpenTag(host);
    var q := text[..|text| - |tag|];
    assert text == q + tag;
    TagParts(h);
    TagParts(host);
    assert text == pre + name + [' '] + h + end;
    assert text == q + name + [' '] + host + end;
    SameEnd(pre + name + [' '] + h, q + name + [' '] + host, end);
    CleanNoSpace(h);
    CleanNoSpace(host);
    LastToken(pre + name, h, q + name, host);
  }

  lemma TagParts(host: string)
    ensures OpenTag(host) == "local_name" + [' '] + host + " {"
  {
  }

  lemma CleanNoSpace(s: string)
    requires Clean(s)
    ensures ' ' !in s
  {
    assert ' ' in SPACE;
  }

  lemma SameEnd(a: string, b: string, end: string)
    requires a + end == b + end
    ensures a == b
  {
    assert (a + end)[..|a|] == a && (b + end)[..|b|] == b;
  }

  lemma SpaceInside(p: string, h: string, q: string, host: string)
    requires p + [' '] + h == q + [' '] + host
    ensures |p| < |q| ==> ' ' in h
  {
    var t := p + [' '] + h;
    if |p| < |q| {
      assert t[|q|] == ' ' && t[|q|] == h[|q| - |p| - 1];
    }
  }

  /** What follows the last space of a text is determined by the text. */
  lemma LastToken(p: string, h: string, q: string, host: string)
    requires p + [' '] + h == q + [' '] + host && ' ' !in h && ' ' !in host
    ensures h == host
  {
    var t := p + [' '] + h;
    SpaceInside(p, h, q, host);
    SpaceInside(q, host, p, h);
    assert t[|p| + 1..] == h && t[|q| + 1..] == host;
  }

  /** No occurrence of `tag` starts inside `a`: the search continues in `b`. */
  lemma IndexSkip(a: string, b: string, tag: string)
    requires forall j :: 0 <= j < |a| ==> !(tag <= (a + b)[j..])
    ensures Index(a + b, tag) == if Index(b, tag) < 0 then -1 else |a| + Index(b, tag)
  {
    var s, r := a + b, Index(b, tag);
    assert forall j :: |a| <= j <= |s| ==> s[j..] == b[j - |a|..];
    IndexFirst(b, tag);
    IndexFirst(s, tag);
    if r >= 0 {
      assert tag <= s[|a| + r..];
    }
  }

  /** Only the last character of `tag` is a brace, and so is only the last character of `a`: an occurrence that
      starts in `a` ends where `a` ends. */
  lemma OccursAtEnd(a: string, rest: string, tag: string, j: nat)
    requires a != "" && tag != "" && j < |a|
    requires a[|a| - 1] == '{' && '{' !in a[..|a| - 1]
    requires tag[|tag| - 1] == '{' && '{' !in tag[..|tag| - 1]
    requires tag <= (a + rest)[j..]
    ensures HasSuffix(a, tag) && j == |a| - |tag|
  {
    var s := a + rest;
    assert forall k :: j <= k < j + |tag| ==> s[k] == s[j..][k - j] == tag[k - j];
    assert forall k :: 0 <= k < |tag| - 1 ==> tag[k] == tag[..|tag| - 1][k];
    assert forall k :: 0 <= k < |a| - 1 ==> s[k] == a[k] == a[..|a| - 1][k];
    assert s[j + |tag| - 1] == '{' && s[|a| - 1] == '{';
    assert a[|a| - |tag|..] == tag;
  }

  lemma TagShape(host: string)
    requires Clean(host)
    ensures var tag := OpenTag(host); tag != "" && tag[|tag| - 1] == '{' && '{' !in tag[..|tag| - 1]
  {
  }

  /** The block opener of another host holds no occurrence of this host's opener. */
  lemma NoTagInOpener(pre: string, h: string, rest: string, host: string)
    requires Clean(h) && Clean(host) && h != host && '{' !in pre
    ensures forall j :: 0 <= j < |pre + OpenTag(h)| ==> !(OpenTag(host) <= (pre + OpenTag(h) + rest)[j..])
  {
    var a, tag := pre + OpenTag(h), OpenTag(host);
    TagShape(h);
    TagShape(host);
    assert a[..|a| - 1] == pre + OpenTag(h)[..|OpenTag(h)| - 1];
    forall j | 0 <= j < |a| && tag <= (a + rest)[j..]
      ensures false
    {
      OccursAtEnd(a, rest, tag, j);
      SameToken(pre, h, host);
    }
  }

  lemma TagHasBrace(s: string, tag: string)
    requires tag != "" && tag[|tag| - 1] == '{'
    ensures Index(s, tag) >= 0 ==> '{' in s
  {
    var r := Index(s, tag);
    IndexFirst(s, tag);
    if r >= 0 {
      assert s[r + |tag| - 1] == s[r..][|tag| - 1] == '{';
    }
  }

  lemma TagHere(pre: string, tag: string, rest: string)
    requires '{' !in pre && tag != "" && tag[|tag| - 1] == '{' && '{' !in tag[..|tag| - 1]
    ensures Index(pre + tag + rest, tag) == |pre|
  {
    var s := pre + tag + rest;
    assert s[|pre|..] == tag + rest;
    var r := Index(s, tag);
    IndexFirst(s, tag);
    OccursAtEnd(pre + tag, rest, tag, r);
  }

  function Position(cs: seq<Chunk>, host: string): (k: int)
    ensures -1 <= k < |cs|
    ensures k >= 0 ==> cs[k].entry.host == host
    ensures k < 0 ==> forall c <- cs :: c.entry.host != host
  {
    if cs == [] then -1
    else if cs[0].entry.host == host then 0
    else
      var k := Position(cs[1..], host);
      if k < 0 then -1 else k + 1
  }

  lemma InsideFree(e: Entry)
    requires CleanEntry(e)
    ensures '{' !in Inside(e)
  {
  }

  lemma OpenedAfterGap(pre: string, gap: string, open: string, inside: string, more: string, tail: string)
    ensures pre + (gap + (open + inside) + more) + tail == pre + gap + open + (inside + more + tail)
  {
  }

  lemma {:induction false} FindBlock(pre: string, cs: seq<Chunk>, tail: string, host: string)
    requires '{' !in pre && '{' !in tail && Clean(host)
    requires forall c <- cs :: CleanEntry(c.entry)
    ensures var k := Position(cs, host);
            Index(pre + Chunks(cs) + tail, OpenTag(host))
            == if k < 0 then -1 else |pre + Chunks(cs[..k])| + cs[k].gap
    decreases |cs|
  {
    if cs == [] {
      TagShape(host);
      TagHasBrace(pre + tail, OpenTag(host));
      assert pre + Chunks(cs) + tail == pre + tail;
    } else {
      var e, gap := cs[0].entry, Newlines(cs[0].gap);
      var rest := Inside(e) + Chunks(cs[1..]) + tail;
      OpenedAfterGap(pre, gap, OpenTag(e.host), Inside(e), Chunks(cs[1..]), tail);
      TagShape(host);
      if e.host == host {
        TagHere(pre + gap, OpenTag(host), rest);
      } else {
        NoTagInOpener(pre + gap, e.host, rest, host);
        IndexSkip(pre + gap + OpenTag(e.host), rest, OpenTag(host));
        InsideFree(e);
        FindBlock(Inside(e), cs[1..], tail, host);
        if Position(cs, host) > 0 {
          ChunksLength(cs, Position(cs, host));
        }
      }
    }
  }

  lemma ChunksLength(cs: seq<Chunk>, k: int)
    requires 0 < k <= |cs|
    ensures |Chunks(cs[..k])|
         == cs[0].gap + |OpenTag(cs[0].entry.host)| + |Inside(cs[0].entry)| + |Chunks(cs[1..][..k - 1])|
  {
    assert cs[..k][1..] == cs[1..][..k - 1];
  }

  lemma {:induction false} BraceSkip(a: string, b: string, i: nat, depth: int)
    requires i <= |a| && Free(a[i..], BRACES)
    ensures ClosingBrace(a + b, i, depth) == ClosingBrace(a + b, |a|, depth)
    decreases |a| - i
  {
    if i < |a| {
      assert a[i] == a[i..][0];
      assert a[i + 1..] == a[i..][1..];
      BraceSkip(a, b, i + 1, depth);
    }
  }

  /** A one-level block closes at its last character. */
  lemma Closes(before: string, body: string, rest: string)
    requires Free(before, BRACES) && Free(body, BRACES)
    ensures ClosingBrace(before + "{" + body + "}" + rest, 0, 0) == |before| + 1 + |body|
  {
    var s := before + "{" + body + "}" + rest;
    assert s == before + ("{" + body + "}" + rest);
    assert before[0..] == before;
    BraceSkip(before, "{" + body + "}" + rest, 0, 0);
    var upTo := before + "{" + body;
    assert upTo[|before| + 1..] == body;
    assert s == upTo + ("}" + rest);
    BraceSkip(upTo, "}" + rest, |before| + 1, 1);
  }

  lemma BlockLength(e: Entry)
    ensures |Block(e)| > 1
  {
  }

  lemma BlockCloses(e: Entry, rest: string)
    requires CleanEntry(e)
    ensures ClosingBrace(Block(e) + rest, 0, 0) == |Block(e)| - 1
  {
    var before := "local_name " + e.host + " ";
    var body := "\n" + CERT_FIELD + e.cert + "\n" + KEY_FIELD + e.key + "\n";
    Closes(before, body, rest);
    assert before + "{" == OpenTag(e.host);
    assert body + "}" == Inside(e);
    AfterBrace(before, "{", body, "}", rest);
  }

  lemma AfterBrace(a: string, b: string, c: string, d: string, e: string)
    ensures a + b + c + d + e == (a + b) + (c + d) + e
  {
  }

  // ---- one upsert ------------------------------------------------------

  function Without(cs: seq<Chunk>, host: string): seq<Chunk> {
    if cs == [] then []
    else if cs[0].entry.host == host then Merged(cs[0].gap, cs[1..])
    else [cs[0]] + Without(cs[1..], host)
  }

  /** The gap of a removed block is left in front of the next one. */
  function Merged(gap: nat, cs: seq<Chunk>): seq<Chunk> {
    if cs == [] then [] else [Chunk(gap + cs[0].gap, cs[0].entry)] + cs[1..]
  }

  function Upserted(cs: seq<Chunk>, e: Entry): seq<Chunk> {
    Without(cs, e.host) + [Chunk(2, e)]
  }

  /** A heading line block: comment text before the first block. */
  ghost predicate Heading(mark: string, heading: string) {
    && mark != "" && mark <= heading && heading[|heading| - 1] != '\n' && '{' !in heading
    && forall l <- Split(heading, '\n') :: !OpensBlock(l)
  }

  lemma {:induction false} TrimLaid(heading: string, cs: seq<Chunk>, pad: string)
    requires heading != "" && heading[|heading| - 1] != '\n' && AllIn(pad, NEWLINE)
    ensures TrimRight(heading + Chunks(cs) + pad, NEWLINE) == heading + Chunks(cs)
  {
    ChunksEnd(cs);
    TrimRightPad(heading + Chunks(cs), pad, NEWLINE);
  }

  lemma {:induction false} ChunksEnd(cs: seq<Chunk>)
    ensures cs != [] ==> Chunks(cs) != "" && Chunks(cs)[|Chunks(cs)| - 1] == '}'
  {
    if |cs| > 1 {
      ChunksEnd(cs[1..]);
    }
  }

  lemma AppendedLaid(heading: string, cs: seq<Chunk>, pad: string, e: Entry)
    requires heading != "" && heading[|heading| - 1] != '\n' && AllIn(pad, NEWLINE)
    ensures Appended(heading + Chunks(cs) + pad, e) == heading + Chunks(cs + [Chunk(2, e)]) + "\n"
  {
    TrimLaid(heading, cs, pad);
    ChunksConcat(cs, [Chunk(2, e)]);
    assert Newlines(2) == "\n\n";
    var b := Block(e);
    assert Chunks([Chunk(2, e)]) == "\n\n" + b + "";
    SplitLast(heading, Chunks(cs), "\n\n", b);
  }

  lemma SplitLast(a: string, b: string, c: string, d: string)
    ensures a + b + c + d == a + (b + (c + d + ""))
  {
  }

  lemma CutOut(src: string, before: string, gap: string, block: string, after: string)
    requires src == before + (gap + block + after)
    ensures src[|before| + |gap|..] == block + after
    ensures src[..|before| + |gap|] + src[|before| + |gap| + |block|..] == before + gap + after
  {
    var at := |before| + |gap|;
    assert src == (before + gap) + (block + after);
    assert src == (before + gap + block) + after;
    assert src[..at] == before + gap;
  }

  lemma MergedText(gap: nat, cs: seq<Chunk>)
    ensures cs != [] ==> Newlines(gap) + Chunks(cs) == Chunks(Merged(gap, cs))
  {
    if cs != [] {
      assert Newlines(gap) + Newlines(cs[0].gap) == Newlines(gap + cs[0].gap);
      assert Merged(gap, cs)[1..] == cs[1..];
      Assoc(Newlines(gap), Newlines(cs[0].gap), Block(cs[0].entry));
      Assoc(Newlines(gap), Newlines(cs[0].gap) + Block(cs[0].entry), Chunks(cs[1..]));
    }
  }

  lemma WithoutBlockIs(src: string, host: string, at: nat, block: string, after: string, cut: string)
    requires Index(src, OpenTag(host)) == at && src[at..] == block + after
    requires |block| > 1 && ClosingBrace(block + after, 0, 0) == |block| - 1
    requires src[..at] + src[at + |block|..] == cut
    ensures WithoutBlock(src, host) == TrimRight(cut, NEWLINE) + "\n\n"
  {
  }

  lemma WithoutBlockAt(src: string, before: string, gap: string, block: string, after: string, host: string)
    requires src == before + (gap + block + after)
    requires |block| > 1 && ClosingBrace(block + after, 0, 0) == |block| - 1
    requires Index(src, OpenTag(host)) == |before| + |gap|
    ensures WithoutBlock(src, host) == TrimRight(before + gap + after, NEWLINE) + "\n\n"
  {
    CutOut(src, before, gap, block, after);
    WithoutBlockIs(src, host, |before| + |gap|, block, after, before + gap + after);
  }

  lemma Slices(cs: seq<Chunk>, k: nat)
    requires 0 < k < |cs|
    ensures cs[..k] == [cs[0]] + cs[1..][..k - 1]
    ensures cs[1..][k - 1] == cs[k] && cs[1..][k..] == cs[k + 1..]
  {
  }

  lemma {:induction false} WithoutAt(cs: seq<Chunk>, host: string)
    ensures var k := Position(cs, host);
            Without(cs, host) == if k < 0 then cs else cs[..k] + Merged(cs[k].gap, cs[k + 1..])
  {
    var k := Position(cs, host);
    if k < 0 {
      WithoutNone(cs, host);
    } else if k == 0 {
      assert cs[..k] == [];
    } else {
      WithoutAt(cs[1..], host);
      Slices(cs, k);
      HeadFirst(cs[0], cs[1..][..k - 1], Merged(cs[k].gap, cs[k + 1..]));
    }
  }

  lemma HeadFirst(c: Chunk, a: seq<Chunk>, b: seq<Chunk>)
    ensures [c] + (a + b) == [c] + a + b
  {
  }

  lemma {:induction false} WithoutNone(cs: seq<Chunk>, host: string)
    requires forall c <- cs :: c.entry.host != host
    ensures Without(cs, host) == cs
  {
    if cs != [] {
      assert cs[0] in cs;
      WithoutNone(cs[1..], host);
      assert [cs[0]] + cs[1..] == cs;
    }
  }

  lemma ChunksAround(cs: seq<Chunk>, k: nat)
    requires k < |cs|
    ensures Chunks(cs) == Chunks(cs[..k]) + (Newlines(cs[k].gap) + Block(cs[k].entry) + Chunks(cs[k + 1..]))
  {
    hide *;
    var a, b := cs[..k], cs[k + 1..];
    Around(cs, k);
    ChunksConcat(a, [cs[k]] + b);
    ChunksCons(cs[k], b);
  }

  lemma ChunksCons(c: Chunk, rest: seq<Chunk>)
    ensures Chunks([c] + rest) == Newlines(c.gap) + Block(c.entry) + Chunks(rest)
  {
    assert ([c] + rest)[1..] == rest;
  }

  lemma TextWithout(heading: string, cs: seq<Chunk>, k: nat) returns (pad: string)
    requires k < |cs| && k == Position(cs, cs[k].entry.host)
    ensures AllIn(pad, NEWLINE)
    ensures heading + Chunks(cs[..k]) + Newlines(cs[k].gap) + (Chunks(cs[k + 1..]) + "\n")
         == heading + Chunks(Without(cs, cs[k].entry.host)) + pad
  {
    hide Block, Position, Without;
    var a, gap, b := cs[..k], cs[k].gap, cs[k + 1..];
    pad := if b == [] then Newlines(gap) + "\n" else "\n";
    WithoutAt(cs, cs[k].entry.host);
    ChunksConcat(a, Merged(gap, b));
    MergedText(gap, b);
    TailOnEitherSide(heading, Chunks(a), Newlines(gap), Chunks(b), "\n");
  }

  /** Cutting a block out of a laid-out file leaves the other blocks in place and only newlines behind them. */
  lemma WithoutBlockLaid(heading: string, cs: seq<Chunk>, host: string) returns (pad: string)
    requires heading != "" && heading[|heading| - 1] != '\n' && '{' !in heading
    requires Clean(host) && forall c <- cs :: CleanEntry(c.entry)
    ensures AllIn(pad, NEWLINE)
    ensures WithoutBlock(heading + Chunks(cs) + "\n", host) == heading + Chunks(Without(cs, host)) + pad
  {
    hide *;
    var k := Position(cs, host);
    OneNewline();
    FindBlock(heading, cs, "\n", host);
    WithoutAt(cs, host);
    if k >= 0 {
      assert cs[k] in cs;
      pad := WithoutBlockPresent(heading, cs, host, k);
    } else {
      pad := "\n";
      NewlinePad();
      NothingCut(heading + Chunks(cs) + "\n", host);
    }
  }

  lemma WithoutBlockPresent(heading: string, cs: seq<Chunk>, host: string, k: nat) returns (pad: string)
    requires heading != "" && heading[|heading| - 1] != '\n'
    requires k < |cs| && k == Position(cs, host) && CleanEntry(cs[k].entry)
    requires Index(heading + Chunks(cs) + "\n", OpenTag(host)) == |heading + Chunks(cs[..k])| + cs[k].gap
    ensures AllIn(pad, NEWLINE)
    ensures WithoutBlock(heading + Chunks(cs) + "\n", host) == heading + Chunks(Without(cs, host)) + pad
  {
    hide *;
    var a, c, b := cs[..k], cs[k], cs[k + 1..];
    var text, before, after := heading + Chunks(cs) + "\n", heading + Chunks(a), Chunks(b) + "\n";
    ChunksAround(cs, k);
    AroundBlock(heading, Chunks(a), Newlines(c.gap), Block(c.entry), Chunks(b), "\n");
    BlockLength(c.entry);
    BlockCloses(c.entry, after);
    GapLength(c.gap);
    WithoutBlockAt(text, before, Newlines(c.gap), Block(c.entry), after, host);
    pad := TextWithout(heading, cs, k);
    TrimLaid(heading, Without(cs, host), pad);
    pad := "\n\n";
    NewlinePad();
  }

  lemma GapLength(n: nat)
    ensures |Newlines(n)| == n
  {
  }

  lemma OneNewline()
    ensures '{' !in "\n"
  {
  }

  lemma NewlinePad()
    ensures AllIn("\n", NEWLINE) && AllIn("\n\n", NEWLINE)
  {
  }

  lemma NothingCut(src: string, host: string)
    requires Index(src, OpenTag(host)) < 0
    ensures WithoutBlock(src, host) == src
  {
  }

  lemma AroundBlock(a: string, b: string, c: string, d: string, e: string, f: string)
    ensures a + (b + (c + d + e)) + f == (a + b) + (c + d + (e + f))
  {
  }

  lemma TailOnEitherSide(a: string, b: string, c: string, d: string, e: string)
    ensures a + b + c + (d + e) == a + (b + (c + d)) + e
    ensures d == "" ==> a + b + c + (d + e) == a + (b + d) + (c + e)
  {
  }

  lemma {:induction false} EntriesConcat(a: seq<Chunk>, b: seq<Chunk>)
    ensures Entries(a + b) == Entries(a) + Entries(b)
  {
    if a == [] {
      assert a + b == b;
    } else {
      EntriesConcat(a[1..], b);
      assert (a + b)[1..] == a[1..] + b;
    }
  }

  lemma OthersNone(es: seq<Entry>, host: string)
    requires forall e <- es :: e.host != host
    ensures Others(es, host) == es
  {
    FlatMapSame(Keeper(host), es);
  }

  lemma OthersHosts(es: seq<Entry>, host: string)
    ensures forall f <- Others(es, host) :: f in es && f.host != host
  {
    forall f <- Others(es, host)
      ensures f in es && f.host != host
    {
      FlatMapIn(Keeper(host), es, f);
    }
  }

  lemma {:induction false} OthersOnePerHost(es: seq<Entry>, e: Entry)
    requires OnePerHost(es)
    ensures OnePerHost(Others(es, e.host) + [e])
  {
    if es == [] {
      assert Others(es, e.host) + [e] == [e];
    } else {
      OthersOnePerHost(es[1..], e);
      OthersHosts(es[1..], e.host);
      var rest := Others(es[1..], e.host);
      if es[0].host == e.host {
        assert Others(es, e.host) == rest;
      } else {
        assert Others(es, e.host) + [e] == [es[0]] + (rest + [e]);
        assert ([es[0]] + (rest + [e]))[1..] == rest + [e];
      }
    }
  }

  lemma {:induction false} WithoutEntries(cs: seq<Chunk>, host: string)
    requires OnePerHost(Entries(cs)) && Spaced(cs)
    ensures Entries(Without(cs, host)) == Others(Entries(cs), host)
    ensures Spaced(Without(cs, host))
  {
    if cs != [] {
      assert Entries(cs)[1..] == Entries(cs[1..]);
      if cs[0].entry.host == host {
        OthersNone(Entries(cs[1..]), host);
        assert Merged(cs[0].gap, cs[1..]) != [] ==> Merged(cs[0].gap, cs[1..])[1..] == cs[1..][1..];
      } else {
        WithoutEntries(cs[1..], host);
        assert ([cs[0]] + Without(cs[1..], host))[1..] == Without(cs[1..], host);
      }
    }
  }

  lemma UpsertedWellFormed(cs: seq<Chunk>, e: Entry)
    requires WellFormed(cs) && CleanEntry(e)
    ensures WellFormed(Upserted(cs, e))
    ensures Entries(Upserted(cs, e)) == Others(Entries(cs), e.host) + [e]
  {
    hide Without, OnePerHost, CleanEntry, Others, Entries;
    WithoutEntries(cs, e.host);
    EntriesConcat(Without(cs, e.host), [Chunk(2, e)]);
    OneEntry(2, e);
    OthersOnePerHost(Entries(cs), e);
  }

  lemma OneEntry(gap: nat, e: Entry)
    ensures Entries([Chunk(gap, e)]) == [e]
  {
  }

  /** An upsert of a panel-written file keeps it panel-written. */
  lemma UpsertLaid(mark: string, heading: string, header: string, text: string, cs: seq<Chunk>, e: Entry)
    requires Heading(mark, heading) && Laid(heading, text, cs) && CleanEntry(e)
    ensures Laid(heading, DovecotText(mark, header, text, e), Upserted(cs, e))
  {
    var pad := WithoutBlockLaid(heading, cs, e.host);
    AppendedLaid(heading, Without(cs, e.host), pad, e);
    UpsertedWellFormed(cs, e);
    assert mark <= text;
  }

  /** A file that is not the panel's is replaced by the heading and the one block. */
  lemma UpsertFresh(mark: string, heading: string, text: string, e: Entry)
    requires Heading(mark, heading) && !(mark <= text) && CleanEntry(e)
    ensures Laid(heading, DovecotText(mark, heading + "\n\n", text, e), [Chunk(2, e)])
  {
    var header := heading + "\n\n";
    TagShape(e.host);
    TagHasBrace(header, OpenTag(e.host));
    assert heading + Chunks([]) + "\n\n" == header;
    AppendedLaid(heading, [], "\n\n", e);
    assert [] + [Chunk(2, e)] == [Chunk(2, e)];
  }

  // ---- reading a panel-written file back -------------------------------

  /** What follows the first newline after the heading. */
  function Body(cs: seq<Chunk>): string {
    if cs == [] || cs[0].gap == 0 then ""
    else Newlines(cs[0].gap - 1) + (Block(cs[0].entry) + "\n" + Body(cs[1..]))
  }

  lemma FirstNewline(gap: string, less: string, block: string, more: string, body: string)
    requires gap == "\n" + less && more + "\n" == "\n" + body
    ensures gap + block + more + "\n" == "\n" + (less + (block + "\n" + body))
  {
    assert gap + block + more + "\n" == gap + block + (more + "\n");
  }

  lemma {:induction false} ChunksBody(cs: seq<Chunk>)
    requires Spaced(cs)
    ensures Chunks(cs) + "\n" == "\n" + Body(cs)
  {
    if cs != [] {
      ChunksBody(cs[1..]);
      var gap, less := Newlines(cs[0].gap), Newlines(cs[0].gap - 1);
      assert cs[0] in cs && gap == "\n" + less;
      FirstNewline(gap, less, Block(cs[0].entry), Chunks(cs[1..]), Body(cs[1..]));
    }
  }

  lemma SkipLine(line: string, rest: seq<string>)
    requires !OpensBlock(line)
    ensures ParseBlocks([line] + rest) == ParseBlocks(rest)
  {
    assert ([line] + rest)[1..] == rest;
  }

  lemma {:induction false} SkipLines(lines: seq<string>, rest: seq<string>)
    requires forall l <- lines :: !OpensBlock(l)
    ensures ParseBlocks(lines + rest) == ParseBlocks(rest)
  {
    if lines == [] {
      assert lines + rest == rest;
    } else {
      SkipLines(lines[1..], rest);
      SkipLine(lines[0], lines[1..] + rest);
      assert lines + rest == [lines[0]] + (lines[1..] + rest);
    }
  }

  lemma {:induction false} SkipNewlines(n: nat, s: string)
    ensures ParseBlocks(Split(Newlines(n) + s, '\n')) == ParseBlocks(Split(s, '\n'))
  {
    if n == 0 {
      assert Newlines(n) + s == s;
    } else {
      SkipNewlines(n - 1, s);
      assert Newlines(n) + s == "" + "\n" + (Newlines(n - 1) + s);
      SplitConcat("", Newlines(n - 1) + s, '\n');
      SkipLine("", Split(Newlines(n - 1) + s, '\n'));
    }
  }

  function BlockLines(e: Entry): seq<string> {
    [OpenTag(e.host), CERT_FIELD + e.cert, KEY_FIELD + e.key, "}"]
  }

  lemma SplitFour(a: string, b: string, c: string, d: string)
    requires '\n' !in a && '\n' !in b && '\n' !in c && '\n' !in d
    ensures Split(a + "\n" + (b + "\n" + (c + "\n" + d)), '\n') == [a, b, c, d]
  {
    SplitNone(a, '\n');
    SplitNone(b, '\n');
    SplitNone(c, '\n');
    SplitNone(d, '\n');
    SplitConcat(c, d, '\n');
    SplitConcat(b, c + "\n" + d, '\n');
    SplitConcat(a, b + "\n" + (c + "\n" + d), '\n');
  }

  lemma InsideShape(o: string, cf: string, c: string, kf: string, k: string)
    ensures o + ("\n" + cf + c + "\n" + kf + k + "\n}") == o + "\n" + ((cf + c) + "\n" + ((kf + k) + "\n" + "}"))
  {
    assert "\n}" == "\n" + "}";
  }

  lemma SplitBlock(e: Entry)
    requires CleanEntry(e)
    ensures Split(Block(e), '\n') == BlockLines(e)
  {
    InsideShape(OpenTag(e.host), CERT_FIELD, e.cert, KEY_FIELD, e.key);
    SplitFour(OpenTag(e.host), CERT_FIELD + e.cert, KEY_FIELD + e.key, "}");
  }

  lemma ParseOne(e: Entry, rest: seq<string>)
    ensures ParseBlocks(BlockLines(e) + rest) == [e] + ParseBlocks(rest)
  {
    var lines := BlockLines(e) + rest;
    assert lines[4..] == rest;
    assert lines[0] == OpenTag(e.host) && lines[1] == CERT_FIELD + e.cert && lines[2] == KEY_FIELD + e.key;
    assert lines[0][11..|lines[0]| - 2] == e.host;
    assert lines[1][|CERT_SETTING|..] == e.cert && lines[2][|KEY_SETTING|..] == e.key;
  }

  lemma {:induction false} ParseBody(cs: seq<Chunk>)
    requires Spaced(cs)
    ensures ParseBlocks(Split(Body(cs), '\n')) == Entries(cs)
  {
    if cs != [] {
      var e := cs[0].entry;
      ParseBody(cs[1..]);
      SkipNewlines(cs[0].gap - 1, Block(e) + "\n" + Body(cs[1..]));
      SplitConcat(Block(e), Body(cs[1..]), '\n');
      SplitBlock(e);
      ParseOne(e, Split(Body(cs[1..]), '\n'));
    }
  }

  /** The line reader recovers exactly the entries laid out in a panel-written file. */
  lemma ParseLaid(mark: string, heading: string, text: string, cs: seq<Chunk>)
    requires Heading(mark, heading) && Laid(heading, text, cs)
    ensures DovecotEntries(mark, text) == Entries(cs)
  {
    ChunksBody(cs);
    Assoc(heading, Chunks(cs), "\n");
    Assoc(heading, "\n", Body(cs));
    SplitConcat(heading, Body(cs), '\n');
    SkipLines(Split(heading, '\n'), Split(Body(cs), '\n'));
    ParseBody(cs);
    assert mark <= text;
  }

  // ---- the map the file denotes ----------------------------------------

  function Meaning(e: Entry): map<string, (string, string)> {
    map[e.host := (e.cert, e.key)]
  }

  /** Host to (certificate, key); a later entry wins. */
  function Denoted(es: seq<Entry>): map<string, (string, string)> {
    Merge(Meaning, es)
  }

  lemma {:induction false} DenotedOthers(es: seq<Entry>, host: string)
    ensures Denoted(Others(es, host)) == Denoted(es) - {host}
  {
    if es != [] {
      DenotedOthers(es[1..], host);
      MergeOne(Meaning, es[0]);
      MergeConcat(Meaning, Keeper(host)(es[0]), Others(es[1..], host));
      MinusUnion(Meaning(es[0]), Denoted(es[1..]), host);
    }
  }

  lemma PutLast(es: seq<Entry>, e: Entry)
    ensures Denoted(Others(es, e.host) + [e]) == Denoted(es)[e.host := (e.cert, e.key)]
  {
    MergeSnoc(Meaning, Others(es, e.host), e);
    DenotedOthers(es, e.host);
  }

  // ---- sequences of upserts --------------------------------------------

  ghost predicate PanelFile(heading: string, text: string) {
    exists cs :: Laid(heading, text, cs)
  }

  /** One upsert, read through the line reader: the other hosts keep their blocks in order and this host's single
      block goes last. */
  lemma UpsertEntries(mark: string, heading: string, text: string, e: Entry)
    requires Heading(mark, heading) && CleanEntry(e) && (PanelFile(heading, text) || !(mark <= text))
    ensures var out := DovecotText(mark, heading + "\n\n", text, e);
            && PanelFile(heading, out)
            && OnePerHost(DovecotEntries(mark, out))
            && DovecotEntries(mark, out) == Others(DovecotEntries(mark, text), e.host) + [e]
  {
    var out := DovecotText(mark, heading + "\n\n", text, e);
    if mark <= text {
      var cs :| Laid(heading, text, cs);
      UpsertLaid(mark, heading, heading + "\n\n", text, cs, e);
      UpsertedWellFormed(cs, e);
      ParseLaid(mark, heading, text, cs);
      ParseLaid(mark, heading, out, Upserted(cs, e));
    } else {
      UpsertFresh(mark, heading, text, e);
      ParseLaid(mark, heading, out, [Chunk(2, e)]);
      assert Entries([Chunk(2, e)]) == [e];
    }
  }

  /** A panel-written file with one block per host that denotes `m`. */
  ghost predicate Denotes(mark: string, heading: string, text: string, m: map<string, (string, string)>) {
    && PanelFile(heading, text)
    && OnePerHost(DovecotEntries(mark, text))
    && Denoted(DovecotEntries(mark, text)) == m
  }

  /** An upsert is a map update. */
  lemma UpsertDenotes(mark: string, heading: string, text: string, es: seq<Entry>, e: Entry)
    requires Heading(mark, heading) && CleanEntry(e) && Denotes(mark, heading, text, Denoted(es))
    ensures Denotes(mark, heading, DovecotText(mark, heading + "\n\n", text, e), Denoted(es + [e]))
  {
    hide DovecotText, Heading, CleanEntry, DovecotEntries, PanelFile, OnePerHost, Others;
    UpsertEntries(mark, heading, text, e);
    PutLast(DovecotEntries(mark, text), e);
    MergeSnoc(Meaning, es, e);
  }

  /** In a file the panel does not own, the upsert leaves just the one block. */
  lemma FirstUpsertDenotes(mark: string, heading: string, text: string, e: Entry)
    requires Heading(mark, heading) && CleanEntry(e) && !(mark <= text)
    ensures Denotes(mark, heading, DovecotText(mark, heading + "\n\n", text, e), Denoted([e]))
  {
    UpsertEntries(mark, heading, text, e);
    assert Others([], e.host) + [e] == [e];
  }

  function Upserter(mark: string, heading: string): (string, Entry) -> string {
    (text: string, e: Entry) => DovecotText(mark, heading + "\n\n", text, e)
  }

  /** The file denotes the upserts made so far; before the first one it may be anything the panel does not own. */
  ghost predicate UpToDate(mark: string, heading: string, text: string, es: seq<Entry>) {
    Denotes(mark, heading, text, Denoted(es)) || (!(mark <= text) && es == [])
  }

  lemma UpToDateKept(mark: string, heading: string, text: string, es: seq<Entry>, e: Entry)
    requires Heading(mark, heading) && CleanEntry(e) && UpToDate(mark, heading, text, es)
    ensures Denotes(mark, heading, Upserter(mark, heading)(text, e), Denoted(es + [e]))
  {
    if es == [] && !(mark <= text) {
      FirstUpsertDenotes(mark, heading, text, e);
      assert [] + [e] == [e];
    } else {
      UpsertDenotes(mark, heading, text, es, e);
    }
  }

  /** From a file the panel does not own, after any upserts the file is the heading followed by exactly one block
      per host, carrying that host's latest paths. */
  lemma UpsertsDenoteLatest(mark: string, heading: string, text: string, es: seq<Entry>)
    requires Heading(mark, heading) && !(mark <= text) && es != [] && forall e <- es :: CleanEntry(e)
    ensures Denotes(mark, heading, Fold(Upserter(mark, heading), text, es), Denoted(es))
  {
    var f := Upserter(mark, heading);
    ghost var inv: (string, seq<Entry>) -> bool := (t, done) => UpToDate(mark, heading, t, done);
    forall t, done, e | inv(t, done) && CleanEntry(e)
      ensures inv(f(t, e), done + [e])
    {
      UpToDateKept(mark, heading, t, done, e);
    }
    FoldKeeps(f, CleanEntry, inv, text, es);
  }

  /** Writing the block that is already last changes no byte; writing any other block does change the text. */
  lemma RepeatIsNoOpIffLast(mark: string, heading: string, text: string, cs: seq<Chunk>, e: Entry)
    requires Heading(mark, heading) && Laid(heading, text, cs) && CleanEntry(e)
    ensures DovecotText(mark, heading + "\n\n", text, e) == text <==> cs != [] && cs[|cs| - 1].entry == e
  {
    var out := DovecotText(mark, heading + "\n\n", text, e);
    UpsertLaid(mark, heading, heading + "\n\n", text, cs, e);
    UpsertedWellFormed(cs, e);
    ParseLaid(mark, heading, text, cs);
    ParseLaid(mark, heading, out, Upserted(cs, e));
    LastEntry(cs);
    if cs != [] && cs[|cs| - 1].entry == e {
      WithoutLast(cs);
      assert cs[..|cs| - 1] + [cs[|cs| - 1]] == cs;
    }
  }

  lemma {:induction false} LastEntry(cs: seq<Chunk>)
    ensures |Entries(cs)| == |cs|
    ensures cs != [] ==> Entries(cs)[|cs| - 1] == cs[|cs| - 1].entry
  {
    if cs != [] {
      LastEntry(cs[1..]);
    }
  }

  lemma {:induction false} WithoutLast(cs: seq<Chunk>)
    requires cs != [] && OnePerHost(Entries(cs))
    ensures Without(cs, cs[|cs| - 1].entry.host) == cs[..|cs| - 1]
  {
    if |cs| > 1 {
      assert Entries(cs)[1..] == Entries(cs[1..]);
      LastEntry(cs[1..]);
      assert cs[|cs| - 1].entry in Entries(cs[1..]);
      WithoutLast(cs[1..]);
      assert cs[..|cs| - 1] == [cs[0]] + cs[1..][..|cs| - 2];
    } else {
      assert cs[1..] == [];
    }
  }
}
