/** `bzpanel heal-www`, certificate half: reading the names a certificate covers and the names to reissue it for. */
module CertNames {
  import opened Text
  import opened Lists
  import opened ServerNames

  // ---- reading ---------------------------------------------------------

  const SAN_TITLE := "Subject Alternative Name:"

  /** One comma-separated entry of the names line. */
  function Entry(raw: string): seq<string> {
    var entry := TrimSpace(raw);
    if !("DNS:" <= entry) then []
    else
      var host := TrimSpace(entry[4..]);
      if host == "" then [] else [host]
  }

  /** The line of names: the first non-blank text after the title's line. */
  function NamesLine(body: string): string {
    var at := Index(body, SAN_TITLE);
    if at < 0 then ""
    else
      var rest := body[at..];
      var nl := IndexChar(rest, '\n');
      if nl < 0 then ""
      else
        var line := TrimSpace(rest[nl + 1..]);
        var end := IndexChar(line, '\n');
        if end < 0 then line else line[..end]
  }

  function Sans(body: string): seq<string> {
    FlatMap(Entry, Split(NamesLine(body), ','))
  }

  predicate Wildcard(sans: seq<string>) {
    exists h <- sans :: "*." <= h
  }

  method ReadCertSans(body: string) returns (sans: seq<string>, wildcard: bool)
    ensures sans == Sans(body) && wildcard == Wildcard(sans)
  {
    hide Entry, NamesLine;
    var raws := Split(NamesLine(body), ',');
    sans, wildcard := [], false;
    for i := 0 to |raws|
      invariant sans == FlatMap(Entry, raws[..i])
      invariant wildcard == Wildcard(sans)
    {
      assert raws[..i + 1] == raws[..i] + [raws[i]];
      FlatMapSnoc(Entry, raws[..i], raws[i]);
      var hosts := Entry(raws[i]);
      if hosts != [] {
        AtMostOne(raws[i]);
        WildcardSnoc(sans, hosts[0]);
        assert hosts == [hosts[0]];
        if "*." <= hosts[0] {
          wildcard := true;
        }
        sans := sans + hosts;
      }
    }
    assert raws[..|raws|] == raws;
  }

  lemma WildcardSnoc(sans: seq<string>, h: string)
    ensures Wildcard(sans + [h]) <==> Wildcard(sans) || "*." <= h
  {
    assert h in sans + [h] && forall g <- sans :: g in sans + [h];
  }

  lemma AtMostOne(raw: string)
    ensures |Entry(raw)| <= 1
  {
  }

  // ---- what openssl prints ---------------------------------------------

  /** A name that one entry can carry. */
  predicate Printable(h: string) {
    Token(h) && ',' !in h
  }

  function PrintEntry(h: string): string {
    "DNS:" + h
  }

  /** " DNS:b": an entry after the first, as it lies between commas. */
  function Spaced(hosts: seq<string>): seq<string> {
    seq(|hosts|, i requires 0 <= i < |hosts| => " " + PrintEntry(hosts[i]))
  }

  function PrintNames(hosts: seq<string>): string {
    if hosts == [] then "" else Join([PrintEntry(hosts[0])] + Spaced(hosts[1..]), ",")
  }

  /** Certificate text: anything, the title with the rest of its line, a padded line of names, anything. */
  function CertText(pre: string, rest: string, pad: string, hosts: seq<string>, post: string): string {
    pre + (SAN_TITLE + rest + "\n" + (pad + PrintNames(hosts) + ("\n" + post)))
  }

  lemma EntryReads(h: string, pad: string)
    requires Printable(h) && AllIn(pad, SPACE)
    ensures Entry(pad + PrintEntry(h)) == [h]
  {
    var e := PrintEntry(h);
    assert pad + e == pad + e + "" && e[4..] == h;
    assert e[|e| - 1] == h[|h| - 1];
    TrimPad(pad, e, "", SPACE);
    TrimBare(h, SPACE);
  }

  lemma {:induction false} SpacedRead(hosts: seq<string>)
    requires forall h <- hosts :: Printable(h)
    ensures FlatMap(Entry, Spaced(hosts)) == hosts
  {
    hide Entry;
    if hosts != [] {
      assert Spaced(hosts)[1..] == Spaced(hosts[1..]);
      assert hosts[0] in hosts;
      assert AllIn(" ", SPACE);
      EntryReads(hosts[0], " ");
      SpacedRead(hosts[1..]);
    }
  }

  lemma PartsFree(hosts: seq<string>, c: char)
    requires hosts != [] && c != ' ' && (forall h <- hosts :: Printable(h) && c !in h) && c !in "DNS:"
    ensures forall p <- [PrintEntry(hosts[0])] + Spaced(hosts[1..]) :: c !in p
  {
    var parts := [PrintEntry(hosts[0])] + Spaced(hosts[1..]);
    forall i | 0 <= i < |parts|
      ensures c !in parts[i]
    {
      assert hosts[i] in hosts;
      assert parts[i] == if i == 0 then PrintEntry(hosts[0]) else " " + PrintEntry(hosts[i]);
    }
  }

  lemma NamesRead(hosts: seq<string>)
    requires hosts != [] && forall h <- hosts :: Printable(h)
    ensures FlatMap(Entry, Split(PrintNames(hosts), ',')) == hosts
  {
    hide Entry, Split;
    var parts := [PrintEntry(hosts[0])] + Spaced(hosts[1..]);
    assert hosts[0] in hosts;
    PartsFree(hosts, ',');
    SplitJoin(parts, ',');
    EntryReads(hosts[0], "");
    assert "" + PrintEntry(hosts[0]) == PrintEntry(hosts[0]);
    assert parts[1..] == Spaced(hosts[1..]);
    SpacedRead(hosts[1..]);
  }

  lemma NamesOneLine(hosts: seq<string>)
    requires hosts != [] && forall h <- hosts :: Printable(h)
    ensures '\n' !in PrintNames(hosts)
  {
    var parts := [PrintEntry(hosts[0])] + Spaced(hosts[1..]);
    PartsFree(hosts, '\n');
    assert forall p <- parts :: Free(p, {'\n'});
    JoinFree(parts, ",", {'\n'});
  }

  lemma NamesShape(hosts: seq<string>)
    requires hosts != [] && forall h <- hosts :: Printable(h)
    ensures PrintNames(hosts) != "" && Bare(PrintNames(hosts), SPACE)
  {
    hide Join;
    var parts := [PrintEntry(hosts[0])] + Spaced(hosts[1..]);
    var before := JoinEnd(parts, ",");
    var last, h := parts[|parts| - 1], hosts[|hosts| - 1];
    assert h in hosts;
    assert last == if |hosts| == 1 then PrintEntry(h) else " " + PrintEntry(h);
    assert last[|last| - 1] == h[|h| - 1];
    JoinStarts(parts, ",");
    var l := PrintNames(hosts);
    assert l[0] == parts[0][0] && l[|l| - 1] == last[|last| - 1];
  }

  lemma JoinStarts(parts: seq<string>, sep: string)
    requires parts != []
    ensures parts[0] <= Join(parts, sep)
  {
  }

  /** Cutting at the first newline finds the line, whatever follows it. */
  lemma FirstLine(pad: string, l: string, post: string)
    requires AllIn(pad, SPACE) && l != "" && Bare(l, SPACE) && '\n' !in l
    ensures var t := TrimSpace(pad + l + ("\n" + post));
            var end := IndexChar(t, '\n');
            (if end < 0 then t else t[..end]) == l
  {
    var s := l + ("\n" + post);
    assert pad + l + ("\n" + post) == pad + s;
    TrimLeftPad(pad, s, SPACE);
    BodyReaches(s, SPACE, |l| - 1);
    var n := BodyLen(s, SPACE);
    var t := TrimRight(s, SPACE);
    IndexCharSpec(t, '\n');
    if n == |l| {
      assert t == l;
    } else {
      assert t == l + ['\n'] + s[|l| + 1..n];
      IndexCharFirst(l, '\n', s[|l| + 1..n]);
    }
  }

  lemma NamesLineReads(pre: string, rest: string, pad: string, l: string, post: string, body: string)
    requires body == pre + (SAN_TITLE + rest + "\n" + (pad + l + ("\n" + post))) && Index(body, SAN_TITLE) == |pre|
    requires '\n' !in rest && AllIn(pad, SPACE) && l != "" && Bare(l, SPACE) && '\n' !in l
    ensures NamesLine(body) == l
  {
    var title := SAN_TITLE + rest;
    var tail := pad + l + ("\n" + post);
    assert '\n' !in SAN_TITLE;
    assert body[|pre|..] == title + ['\n'] + tail;
    IndexCharFirst(title, '\n', tail);
    assert (title + ['\n'] + tail)[|title| + 1..] == tail;
    FirstLine(pad, l, post);
  }

  /** Reading inverts printing: the names come back in order, whatever surrounds them in the text. */
  lemma SansReadBack(pre: string, rest: string, pad: string, hosts: seq<string>, post: string)
    requires hosts != [] && forall h <- hosts :: Printable(h)
    requires '\n' !in rest && AllIn(pad, SPACE)
    requires Index(CertText(pre, rest, pad, hosts, post), SAN_TITLE) == |pre|
    ensures Sans(CertText(pre, rest, pad, hosts, post)) == hosts
  {
    NamesShape(hosts);
    NamesOneLine(hosts);
    NamesLineReads(pre, rest, pad, PrintNames(hosts), post, CertText(pre, rest, pad, hosts, post));
    NamesRead(hosts);
  }

  // ---- reissuing -------------------------------------------------------

  function Folded(name: string): string {
    ToLower(TrimSpace(name))
  }

  predicate SansContains(sans: seq<string>, target: string) {
    exists s <- sans :: Folded(s) == Folded(target)
  }

  function FoldedSet(names: seq<string>): set<string> {
    set n | n in names :: Folded(n)
  }

  /** Names in order, each kept the first time its folded form shows up; empty names are dropped. */
  function Distinct(names: seq<string>): seq<string> {
    if names == [] then []
    else
      var n := |names| - 1;
      var kept := Distinct(names[..n]);
      if names[n] == "" || Folded(names[n]) in FoldedSet(kept) then kept else kept + [names[n]]
  }

  /** The names in the order they are offered: the domain, what the certificate covers, what it lacks. */
  function Offered(domain: string, sans: seq<string>): seq<string> {
    [domain] + sans
    + (if SansContains(sans, Www(domain)) then [] else [Www(domain)])
    + (if SansContains(sans, Cname(domain)) then [] else [Cname(domain)])
  }

  method CertbotNames(domain: string, sans: seq<string>) returns (names: seq<string>)
    ensures names == Distinct(Offered(domain, sans))
  {
    hide Folded;
    var offered := Offered(domain, sans);
    names := [];
    var seen: set<string> := {};
    for i := 0 to |offered|
      invariant names == Distinct(offered[..i]) && seen == FoldedSet(names)
    {
      assert offered[..i + 1][..i] == offered[..i];
      var name := offered[i];
      var k := Folded(name);
      if name != "" && k !in seen {
        FoldedSnoc(names, name);
        seen := seen + {k};
        names := names + [name];
      }
    }
    assert offered[..|offered|] == offered;
  }

  lemma FoldedSnoc(names: seq<string>, name: string)
    ensures FoldedSet(names + [name]) == FoldedSet(names) + {Folded(name)}
  {
  }

  lemma {:induction false} DistinctShape(names: seq<string>)
    requires forall n <- names :: n != ""
    ensures FoldedSet(Distinct(names)) == FoldedSet(names)
    ensures forall i, j :: 0 <= i < j < |Distinct(names)| ==> Folded(Distinct(names)[i]) != Folded(Distinct(names)[j])
    ensures forall n <- Distinct(names) :: n in names
    ensures names != [] ==> Distinct(names) != [] && Distinct(names)[0] == names[0]
  {
    hide Folded;
    if names != [] {
      var n := |names| - 1;
      var kept := Distinct(names[..n]);
      assert forall m <- names[..n] :: m in names;
      DistinctShape(names[..n]);
      assert names[..n] + [names[n]] == names;
      FoldedSnoc(names[..n], names[n]);
      FoldedSnoc(kept, names[n]);
      assert forall i :: 0 <= i < |kept| ==> Folded(kept[i]) in FoldedSet(kept);
    }
  }

  /** The reissued certificate starts with the domain, lists no name twice up to case, and covers exactly what the old
      one covered plus the domain, its www. and its cname. name. */
  lemma ReissueDropsNothing(domain: string, sans: seq<string>)
    requires domain != "" && forall s <- sans :: s != ""
    ensures var names := Distinct(Offered(domain, sans));
            && names != [] && names[0] == domain
            && (forall i, j :: 0 <= i < j < |names| ==> Folded(names[i]) != Folded(names[j]))
            && FoldedSet(names) == FoldedSet(sans) + {Folded(domain), Folded(Www(domain)), Folded(Cname(domain))}
  {
    hide Folded, Www, Cname;
    var offered := Offered(domain, sans);
    assert Www(domain) != "" && Cname(domain) != "" by {
      WantedNonempty(domain);
    }
    DistinctShape(offered);
    OfferedFolds(domain, sans);
  }

  lemma WantedNonempty(domain: string)
    ensures Www(domain) != "" && Cname(domain) != ""
  {
  }

  lemma FoldedConcat(a: seq<string>, b: seq<string>)
    ensures FoldedSet(a + b) == FoldedSet(a) + FoldedSet(b)
  {
  }

  lemma ContainsIff(sans: seq<string>, target: string)
    ensures SansContains(sans, target) <==> Folded(target) in FoldedSet(sans)
  {
  }

  lemma OfferedFolds(domain: string, sans: seq<string>)
    ensures FoldedSet(Offered(domain, sans))
         == FoldedSet(sans) + {Folded(domain), Folded(Www(domain)), Folded(Cname(domain))}
  {
    hide Folded, Www, Cname;
    var w := if SansContains(sans, Www(domain)) then [] else [Www(domain)];
    var c := if SansContains(sans, Cname(domain)) then [] else [Cname(domain)];
    FoldedConcat([domain], sans);
    FoldedConcat([domain] + sans, w);
    FoldedConcat([domain] + sans + w, c);
    ContainsIff(sans, Www(domain));
    ContainsIff(sans, Cname(domain));
  }

  /** A certificate issued for the computed names, printed and read again, needs no further reissue. */
  lemma ReissuedIsAlreadyOk(domain: string, sans: seq<string>, pre: string, rest: string, pad: string, post: string)
    requires Printable(domain) && forall s <- sans :: Printable(s)
    requires '\n' !in rest && AllIn(pad, SPACE)
    requires Index(CertText(pre, rest, pad, Distinct(Offered(domain, sans)), post), SAN_TITLE) == |pre|
    ensures var again := Sans(CertText(pre, rest, pad, Distinct(Offered(domain, sans)), post));
            SansContains(again, Www(domain)) && SansContains(again, Cname(domain))
  {
    hide Folded, Sans, CertText, Index;
    var names := Distinct(Offered(domain, sans));
    ReissueDropsNothing(domain, sans);
    WantedPrintable(domain);
    WantedNonempty(domain);
    DistinctShape(Offered(domain, sans));
    SansReadBack(pre, rest, pad, names, post);
    ContainsIff(names, Www(domain));
    ContainsIff(names, Cname(domain));
  }

  lemma WantedPrintable(domain: string)
    requires Printable(domain)
    ensures Printable(Www(domain)) && Printable(Cname(domain))
  {
  }

  // ---- spelled out ------------------------------------------------------

  /** The same name up to outer spaces and the case of its letters. */
  predicate SameName(a: string, b: string) {
    SameUpToCase(TrimSpace(a), TrimSpace(b))
  }

  lemma FoldedIff(a: string, b: string)
    ensures Folded(a) == Folded(b) <==> SameName(a, b)
  {
    LowerSameIff(TrimSpace(a), TrimSpace(b));
  }

  lemma FoldedIn(names: seq<string>, target: string)
    ensures Folded(target) in FoldedSet(names) <==> exists n <- names :: SameName(n, target)
  {
    hide Folded, SameName;
    forall n <- names
      ensures Folded(n) == Folded(target) <==> SameName(n, target)
    {
      FoldedIff(n, target);
    }
  }

  /** The reissued certificate, name by name: the domain first, no name twice, and a name is covered exactly when
      the old certificate covered it or it is the domain, its www. or its cname. name. */
  lemma ReissueCovers(domain: string, sans: seq<string>, target: string)
    requires domain != "" && forall s <- sans :: s != ""
    ensures var names := Distinct(Offered(domain, sans));
            && names != [] && names[0] == domain
            && (forall i, j :: 0 <= i < j < |names| ==> !SameName(names[i], names[j]))
            && ((exists n <- names :: SameName(n, target))
                <==> || (exists s <- sans :: SameName(s, target))
                     || SameName(domain, target) || SameName("www." + domain, target)
                     || SameName("cname." + domain, target))
  {
    hide Folded, SameName, Offered, Distinct;
    var names := Distinct(Offered(domain, sans));
    ReissueDropsNothing(domain, sans);
    FoldedIn(names, target);
    FoldedIn(sans, target);
    FoldedIff(domain, target);
    FoldedIff("www." + domain, target);
    FoldedIff("cname." + domain, target);
    forall i, j | 0 <= i < j < |names|
      ensures !SameName(names[i], names[j])
    {
      FoldedIff(names[i], names[j]);
    }
  }

  /** Two names in a certificate dump, as openssl prints them. */
  lemma TwoNamesRead(rest: string, pad: string, a: string, b: string, post: string)
    requires Printable(a) && Printable(b) && '\n' !in rest && AllIn(pad, SPACE)
    ensures Sans("Subject Alternative Name:" + rest + "\n" + (pad + ("DNS:" + a + ", DNS:" + b) + ("\n" + post)))
         == [a, b]
  {
    hide Sans, Index, PrintNames;
    var text := "Subject Alternative Name:" + rest + "\n" + (pad + ("DNS:" + a + ", DNS:" + b) + ("\n" + post));
    TwoPrinted(a, b);
    assert CertText("", rest, pad, [a, b], post) == text;
    TitleFirst(text, rest + "\n" + (pad + ("DNS:" + a + ", DNS:" + b) + ("\n" + post)));
    SansReadBack("", rest, pad, [a, b], post);
  }

  lemma TwoPrinted(a: string, b: string)
    ensures PrintNames([a, b]) == "DNS:" + a + ", DNS:" + b
  {
    assert [a, b][1..] == [b];
    var parts := [PrintEntry(a), " " + PrintEntry(b)];
    assert Spaced([b]) == [" " + PrintEntry(b)];
    assert parts[1..] == [" " + PrintEntry(b)];
    assert Join(parts, ",") == PrintEntry(a) + "," + (" " + PrintEntry(b));
    assert ", DNS:" == "," + " " + "DNS:";
  }

  lemma TitleFirst(text: string, after: string)
    requires text == "Subject Alternative Name:" + after
    ensures Index(text, SAN_TITLE) == 0
  {
    assert SAN_TITLE <= text;
  }
}
