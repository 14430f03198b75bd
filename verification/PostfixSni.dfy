/** Postfix's SNI map: one "host value" line per mail host. */
module PostfixSni {
  import opened Text
  import opened Lists
  import opened DovecotSni

  /** The value column: the private key must come before the certificate chain. */
  function Value(e: Entry): string {
    e.key + "," + e.cert
  }

  function MapLine(e: Entry): string {
    e.host + " " + Value(e)
  }

  predicate ForHost(line: string, host: string) {
    var fields := Fields(TrimSpace(line));
    fields != [] && fields[0] == host
  }

  /** Blank lines go, lines of the host are replaced, all others stay. */
  function Rewrite(line: string, e: Entry): seq<string> {
    if TrimSpace(line) == "" then [] else [if ForHost(line, e.host) then MapLine(e) else line]
  }

  function Rewriter(e: Entry): string -> seq<string> {
    line => Rewrite(line, e)
  }

  function Rewritten(lines: seq<string>, e: Entry): seq<string> {
    FlatMap(Rewriter(e), lines)
  }

  predicate Mentions(lines: seq<string>, host: string) {
    exists l <- lines :: ForHost(l, host)
  }

  function NewLines(lines: seq<string>, e: Entry): seq<string> {
    Rewritten(lines, e) + if Mentions(lines, e.host) then [] else [MapLine(e)]
  }

  function PostfixText(prior: string, e: Entry): string {
    Join(NewLines(Split(prior, '\n'), e), "\n") + "\n"
  }

  lemma NextLine(lines: seq<string>, i: nat, e: Entry)
    requires i < |lines|
    ensures Rewritten(lines[..i + 1], e) == Rewritten(lines[..i], e) + Rewrite(lines[i], e)
    ensures Mentions(lines[..i + 1], e.host) <==> Mentions(lines[..i], e.host) || ForHost(lines[i], e.host)
  {
    assert lines[..i + 1] == lines[..i] + [lines[i]];
    FlatMapSnoc(Rewriter(e), lines[..i], lines[i]);
  }

  lemma ForHostNotBlank(line: string, host: string)
    ensures ForHost(line, host) ==> TrimSpace(line) != ""
  {
  }

  method PostfixUpsert(prior: string, e: Entry) returns (body: string)
    ensures body == PostfixText(prior, e)
  {
    var lines := Split(prior, '\n');
    var out: seq<string> := [];
    var replaced := false;
    for i := 0 to |lines|
      invariant out == Rewritten(lines[..i], e)
      invariant replaced <==> Mentions(lines[..i], e.host)
    {
      NextLine(lines, i, e);
      ForHostNotBlank(lines[i], e.host);
      var t := TrimSpace(lines[i]);
      if t == "" {
        continue;
      }
      var fields := Fields(t);
      if |fields| > 0 && fields[0] == e.host {
        out := out + [MapLine(e)];
        replaced := true;
        continue;
      }
      out := out + [lines[i]];
    }
    assert lines[..|lines|] == lines;
    if !replaced {
      out := out + [MapLine(e)];
    }
    assert out == NewLines(lines, e);
    body := Join(out, "\n") + "\n";
  }

  // ---- the map the file denotes ----------------------------------------

  function LineMeaning(line: string): map<string, string> {
    var fields := Fields(line);
    if fields == [] then map[] else map[fields[0] := Join(fields[1..], " ")]
  }

  /** First field to the rest of the line; a later line wins. */
  function LinesDenote(lines: seq<string>): map<string, string> {
    Merge(LineMeaning, lines)
  }

  function PostfixDenoted(text: string): map<string, string> {
    LinesDenote(Split(text, '\n'))
  }

  lemma ValueToken(e: Entry)
    requires CleanEntry(e)
    ensures Token(Value(e)) && '\n' !in MapLine(e)
  {
  }

  lemma PairMeaning(line: string, host: string, value: string)
    requires line == host + " " + value && Token(host) && Token(value)
    ensures Fields(line) == [host, value] && TrimSpace(line) != "" && ForHost(line, host)
    ensures LineMeaning(line) == map[host := value]
  {
    FieldsPair(host, value);
    assert [host, value][1..] == [value];
    BlankFields(line);
  }

  lemma FieldsPair(host: string, value: string)
    requires Token(host) && Token(value)
    ensures Fields(host + " " + value) == [host, value]
  {
    hide Fields, Token;
    var two := [host, value];
    assert two[1..] == [value];
    FieldsJoin("", two, "");
    assert "" + Join(two, " ") + "" == host + " " + value;
  }

  lemma MapLineMeaning(e: Entry)
    requires CleanEntry(e)
    ensures LineMeaning(MapLine(e)) == map[e.host := Value(e)]
    ensures TrimSpace(MapLine(e)) != "" && ForHost(MapLine(e), e.host)
  {
    ValueToken(e);
    PairMeaning(MapLine(e), e.host, Value(e));
  }

  lemma BlankFields(line: string)
    ensures TrimSpace(line) == "" <==> Fields(line) == []
    ensures Fields(TrimSpace(line)) == Fields(line)
  {
    FieldsTrim(line);
    TrimBare(line, SPACE);
    var t := TrimSpace(line);
    if t != "" {
      TrimLeftPad("", t, SPACE);
      assert "" + t == t;
    }
  }

  lemma RewriteMeaning(line: string, e: Entry)
    requires CleanEntry(e)
    ensures ForHost(line, e.host) <==> e.host in LineMeaning(line)
    ensures Merge(LineMeaning, Rewrite(line, e))
         == Put(LineMeaning(line), e.host, Value(e))
  {
    BlankFields(line);
    if ForHost(line, e.host) {
      MapLineMeaning(e);
      MergeOne(LineMeaning, MapLine(e));
    } else if TrimSpace(line) != "" {
      MergeOne(LineMeaning, line);
    }
  }

  lemma {:induction false} RewrittenMeaning(lines: seq<string>, e: Entry)
    requires CleanEntry(e)
    ensures Mentions(lines, e.host) <==> e.host in LinesDenote(lines)
    ensures LinesDenote(Rewritten(lines, e)) == Put(LinesDenote(lines), e.host, Value(e))
  {
    if lines != [] {
      RewrittenMeaning(lines[1..], e);
      RewriteMeaning(lines[0], e);
      PutUnion(LineMeaning(lines[0]), LinesDenote(lines[1..]), e.host, Value(e));
      MergeConcat(LineMeaning, Rewrite(lines[0], e), Rewritten(lines[1..], e));
      assert Rewritten(lines, e) == Rewrite(lines[0], e) + Rewritten(lines[1..], e);
      assert Mentions(lines, e.host) <==> ForHost(lines[0], e.host) || Mentions(lines[1..], e.host);
    }
  }

  lemma NewLinesProper(lines: seq<string>, e: Entry)
    requires CleanEntry(e) && forall l <- lines :: '\n' !in l
    ensures forall l <- NewLines(lines, e) :: '\n' !in l
    ensures NewLines(lines, e) != []
  {
    ValueToken(e);
    forall l <- Rewritten(lines, e)
      ensures '\n' !in l
    {
      FlatMapIn(Rewriter(e), lines, l);
    }
    if Mentions(lines, e.host) {
      var l :| l in lines && ForHost(l, e.host);
      ForHostNotBlank(l, e.host);
      assert MapLine(e) in Rewriter(e)(l);
      FlatMapIn(Rewriter(e), lines, MapLine(e));
    }
  }

  lemma SplitText(prior: string, e: Entry)
    requires CleanEntry(e)
    ensures Split(PostfixText(prior, e), '\n') == NewLines(Split(prior, '\n'), e) + [""]
  {
    var lines := Split(prior, '\n');
    SplitFree(prior, '\n');
    NewLinesProper(lines, e);
    var out := NewLines(lines, e);
    SplitJoin(out, '\n');
    SplitConcat(Join(out, "\n"), "", '\n');
    assert Join(out, "\n") + "\n" + "" == PostfixText(prior, e);
  }

  lemma NewLinesDenote(lines: seq<string>, e: Entry)
    requires CleanEntry(e)
    ensures LinesDenote(NewLines(lines, e)) == LinesDenote(lines)[e.host := Value(e)]
  {
    RewrittenMeaning(lines, e);
    if !Mentions(lines, e.host) {
      MapLineMeaning(e);
      MergeSnoc(LineMeaning, Rewritten(lines, e), MapLine(e));
    } else {
      assert NewLines(lines, e) == Rewritten(lines, e);
    }
  }

  /** Whatever the file held before, an upsert is a map update. */
  lemma PostfixUpsertDenotes(prior: string, e: Entry)
    requires CleanEntry(e)
    ensures PostfixDenoted(PostfixText(prior, e)) == PostfixDenoted(prior)[e.host := Value(e)]
  {
    SplitText(prior, e);
    NewLinesDenote(Split(prior, '\n'), e);
    MergeSnoc(LineMeaning, NewLines(Split(prior, '\n'), e), "");
    FieldsBlank("");
  }

  /** The host's line, spelled out, is in the rewritten map. */
  lemma LineWritten(prior: string, e: Entry)
    requires CleanEntry(e)
    ensures e.host + " " + e.key + "," + e.cert in Split(PostfixText(prior, e), '\n')
  {
    hide Rewrite;
    var lines := Split(prior, '\n');
    SplitText(prior, e);
    MapLineIs(e);
    if Mentions(lines, e.host) {
      var l :| l in lines && ForHost(l, e.host);
      FlatMapIn(Rewriter(e), lines, MapLine(e));
      RewriteHost(l, e);
    }
    assert MapLine(e) in NewLines(lines, e);
  }

  lemma MapLineIs(e: Entry)
    ensures MapLine(e) == e.host + " " + e.key + "," + e.cert
  {
    assert e.host + " " + (e.key + "," + e.cert) == e.host + " " + e.key + "," + e.cert;
  }

  lemma RewriteHost(line: string, e: Entry)
    requires ForHost(line, e.host)
    ensures MapLine(e) in Rewrite(line, e)
  {
  }

  /** A line an upsert wrote is left alone by the same upsert. */
  lemma RewriteStable(line: string, e: Entry)
    requires CleanEntry(e)
    ensures forall l <- Rewrite(line, e) :: Rewrite(l, e) == [l]
  {
    MapLineMeaning(e);
  }

  lemma NewLinesTwice(lines: seq<string>, e: Entry)
    requires CleanEntry(e)
    ensures Rewritten(NewLines(lines, e), e) == NewLines(lines, e)
  {
    var f := Rewriter(e);
    forall x, l | x in lines && l in f(x)
      ensures f(l) == [l]
    {
      RewriteStable(x, e);
    }
    FlatMapTwice(f, lines);
    if !Mentions(lines, e.host) {
      MapLineMeaning(e);
      FlatMapSnoc(f, Rewritten(lines, e), MapLine(e));
    } else {
      assert NewLines(lines, e) == Rewritten(lines, e);
    }
  }

  lemma NewLinesAgain(lines: seq<string>, e: Entry)
    requires CleanEntry(e)
    ensures NewLines(NewLines(lines, e) + [""], e) == NewLines(lines, e)
  {
    var out := NewLines(lines, e);
    NewLinesDenote(lines, e);
    FieldsBlank("");
    BlankFields("");
    MergeSnoc(LineMeaning, out, "");
    RewrittenMeaning(out + [""], e);
    FlatMapSnoc(Rewriter(e), out, "");
    NewLinesTwice(lines, e);
  }

  /** Repeating an upsert changes no byte. */
  lemma PostfixRepeatIsNoOp(prior: string, e: Entry)
    requires CleanEntry(e)
    ensures PostfixText(PostfixText(prior, e), e) == PostfixText(prior, e)
  {
    SplitText(prior, e);
    NewLinesAgain(Split(prior, '\n'), e);
  }
}
