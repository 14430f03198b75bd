/** `bzpanel heal-www`, nginx half: every server_name directive that mentions a domain gets its www. and cname.
    names. */
module ServerNames {
  import opened Text
  import opened Options

  const BLANKS: set<char> := {' ', '\t'}
  const ENDING: set<char> := {' ', '\t', ';'}

  function Www(domain: string): string {
    "www." + domain
  }

  function Cname(domain: string): string {
    "cname." + domain
  }

  function Indent(line: string): string {
    line[..LeadLen(line, BLANKS)]
  }

  /** The hosts of a line that is a server_name directive mentioning the domain. */
  function Hosts(line: string, domain: string): Option<seq<string>> {
    var trim := TrimSpace(line);
    if !("server_name" <= trim) || !Contains(trim, domain) then None
    else HostsIn(TrimSuffix(TrimRight(trim, ENDING), ";"))
  }

  function HostsIn(cleaned: string): Option<seq<string>> {
    var parts := Fields(cleaned);
    if |parts| < 2 || parts[0] != "server_name" then None else Some(parts[1..])
  }

  predicate Names(hosts: seq<string>, name: string) {
    exists h <- hosts :: ToLower(h) == ToLower(name)
  }

  /** The hosts with the missing names appended. */
  function Completed(hosts: seq<string>, domain: string): seq<string> {
    hosts + (if Names(hosts, Www(domain)) then [] else [Www(domain)])
          + (if Names(hosts, Cname(domain)) then [] else [Cname(domain)])
  }

  predicate Lacking(line: string, domain: string) {
    Hosts(line, domain).Some? && Completed(Hosts(line, domain).value, domain) != Hosts(line, domain).value
  }

  function Directive(indent: string, hosts: seq<string>): string {
    indent + "server_name " + Join(hosts, " ") + ";"
  }

  function HealedLine(line: string, domain: string): string {
    if Lacking(line, domain) then Directive(Indent(line), Completed(Hosts(line, domain).value, domain)) else line
  }

  /** The line is a directive mentioning the domain that lacks its www. or its cname. name. */
  predicate Misses(line: string, domain: string) {
    match Hosts(line, domain)
    case None => false
    case Some(hosts) => !Names(hosts, Www(domain)) || !Names(hosts, Cname(domain))
  }

  lemma LackingIff(line: string, domain: string)
    ensures Lacking(line, domain) <==> Misses(line, domain)
  {
    hide Hosts;
  }

  /** `lines` is `orig` with every line healed. */
  ghost predicate AllHealed(lines: seq<string>, orig: seq<string>, domain: string) {
    |lines| == |orig| && forall i :: 0 <= i < |orig| ==> lines[i] == HealedLine(orig[i], domain)
  }

  method HealLines(orig: seq<string>, domain: string) returns (lines: seq<string>, changed: bool)
    ensures AllHealed(lines, orig, domain)
    ensures changed <==> exists l <- orig :: Lacking(l, domain)
  {
    hide Hosts, Completed, Directive, Indent;
    lines, changed := orig, false;
    for i := 0 to |lines|
      invariant |lines| == |orig|
      invariant forall j :: 0 <= j < i ==> lines[j] == HealedLine(orig[j], domain)
      invariant forall j :: i <= j < |orig| ==> lines[j] == orig[j]
      invariant changed <==> exists j :: 0 <= j < i && Lacking(orig[j], domain)
    {
      var found := Hosts(lines[i], domain);
      if found.Some? {
        var hosts := Completed(found.value, domain);
        if hosts != found.value {
          lines := lines[i := Directive(Indent(lines[i]), hosts)];
          changed := true;
        }
      }
    }
  }

  method HealVhostServerNames(body: string, domain: string) returns (text: string, changed: bool)
    ensures changed <==> exists l <- Split(body, '\n') :: Misses(l, domain)
    ensures !changed ==> text == body
    ensures changed ==> exists lines :: AllHealed(lines, Split(body, '\n'), domain) && text == Join(lines, "\n")
  {
    hide Lacking, Misses, AllHealed;
    var lines;
    lines, changed := HealLines(Split(body, '\n'), domain);
    forall l <- Split(body, '\n')
      ensures Lacking(l, domain) <==> Misses(l, domain)
    {
      LackingIff(l, domain);
    }
    if !changed {
      return body, false;
    }
    text := Join(lines, "\n");
  }

  // ---- what healing achieves -------------------------------------------

  /** A host name as the panel stores it: no space or semicolon. */
  predicate HostName(domain: string) {
    Token(domain) && ';' !in domain
  }

  lemma WantedTokens(domain: string)
    requires HostName(domain)
    ensures HostName(Www(domain)) && HostName(Cname(domain))
    ensures Contains(Www(domain), domain) && Contains(Cname(domain), domain)
  {
    assert Www(domain)[4..] == domain && Cname(domain)[6..] == domain;
    ContainsAt(Www(domain), domain, 4);
    ContainsAt(Cname(domain), domain, 6);
  }

  lemma HostsTokens(line: string, domain: string)
    requires Hosts(line, domain).Some?
    ensures Hosts(line, domain).value != [] && forall h <- Hosts(line, domain).value :: Token(h)
  {
    var cleaned := TrimSuffix(TrimRight(TrimSpace(line), ENDING), ";");
    FieldsTokens(cleaned);
  }

  lemma {:induction false} JoinEnd(parts: seq<string>, sep: string) returns (before: string)
    requires parts != []
    ensures Join(parts, sep) == before + parts[|parts| - 1]
  {
    if |parts| == 1 {
      before := "";
      assert Join(parts, sep) == "" + parts[0];
    } else {
      var rest := JoinEnd(parts[1..], sep);
      before := parts[0] + sep + rest;
      Assoc(parts[0] + sep, rest, parts[|parts| - 1]);
    }
  }

  /** A directive written by the healer reads back as the hosts it was written from. */
  lemma DirectiveReads(indent: string, hosts: seq<string>, domain: string, last: string)
    requires AllIn(indent, SPACE) && hosts != [] && forall h <- hosts :: Token(h)
    requires last == hosts[|hosts| - 1] && last != "" && last[|last| - 1] !in ENDING && Contains(last, domain)
    ensures Hosts(Directive(indent, hosts), domain) == Some(hosts)
  {
    hide *;
    var before := JoinEnd(hosts, " ");
    ServerNameFields(hosts);
    var j := Join(hosts, " ");
    var body := "server_name " + j;
    Assoc("server_name ", before, last);
    FrontNotSpace("server_name " + before);
    DirectiveTrim(indent, "server_name " + before, last, domain);
    DirectiveShape(indent, hosts, j);
    HostsAre(Directive(indent, hosts), domain, body + ";", body, hosts);
  }

  lemma FrontNotSpace(front: string)
    requires front != "" && front[0] == 's'
    ensures front[0] !in SPACE
  {
  }

  lemma DirectiveShape(indent: string, hosts: seq<string>, j: string)
    requires j == Join(hosts, " ")
    ensures Directive(indent, hosts) == indent + ("server_name " + j + ";")
    ensures "server_name" <= "server_name " + j + ";"
  {
    Assoc(indent + "server_name ", j, ";");
    Assoc(indent, "server_name ", j + ";");
    Assoc("server_name ", j, ";");
  }

  lemma HostsAre(line: string, domain: string, trim: string, cleaned: string, hosts: seq<string>)
    requires TrimSpace(line) == trim && "server_name" <= trim && Contains(trim, domain)
    requires TrimSuffix(TrimRight(trim, ENDING), ";") == cleaned && HostsIn(cleaned) == Some(hosts)
    ensures Hosts(line, domain) == Some(hosts)
  {
  }

  lemma DirectiveTrim(indent: string, front: string, last: string, domain: string)
    requires AllIn(indent, SPACE) && front != "" && front[0] !in SPACE
    requires last != "" && last[|last| - 1] !in ENDING && Contains(last, domain)
    ensures var body := front + last;
            && TrimSpace(indent + (body + ";")) == body + ";" && Contains(body + ";", domain)
            && TrimRight(body + ";", ENDING) == body && TrimSuffix(body, ";") == body
  {
    var body := front + last;
    var trim := body + ";";
    assert indent + trim == indent + trim + "";
    TrimPad(indent, trim, "", SPACE);
    TrimRightPad(body, ";", ENDING);
    ContainsInMiddle(front, last, ";", domain);
    assert body[|body| - 1] == last[|last| - 1];
  }

  lemma ServerNameFields(hosts: seq<string>)
    requires hosts != [] && forall h <- hosts :: Token(h)
    ensures HostsIn("server_name " + Join(hosts, " ")) == Some(hosts)
  {
    var name: string := "server_name";
    assert Token(name);
    FieldsAfter(name, hosts);
    assert "server_name " == name + " ";
    assert ([name] + hosts)[1..] == hosts;
  }

  lemma FieldsAfter(name: string, hosts: seq<string>)
    requires Token(name) && hosts != [] && forall h <- hosts :: Token(h)
    ensures Fields(name + " " + Join(hosts, " ")) == [name] + hosts
  {
    hide Fields;
    JoinCons(name, hosts, " ");
    FieldsJoin("", [name] + hosts, "");
    assert "" + Join([name] + hosts, " ") + "" == Join([name] + hosts, " ");
  }

  lemma IndentBlank(line: string)
    ensures AllIn(Indent(line), SPACE)
  {
    LeadLenSpec(line, BLANKS);
  }

  lemma CompletedEnd(hosts: seq<string>, domain: string)
    requires HostName(domain) && (forall h <- hosts :: Token(h)) && Completed(hosts, domain) != hosts
    ensures var c := Completed(hosts, domain);
            && c != [] && (forall h <- c :: Token(h))
            && c[|c| - 1][|c[|c| - 1]| - 1] !in ENDING && Contains(c[|c| - 1], domain)
  {
    WantedTokens(domain);
    var c := Completed(hosts, domain);
    assert c[|c| - 1] in [Www(domain), Cname(domain)];
  }

  lemma CompletedNames(hosts: seq<string>, domain: string)
    ensures Names(Completed(hosts, domain), Www(domain)) && Names(Completed(hosts, domain), Cname(domain))
    ensures Completed(Completed(hosts, domain), domain) == Completed(hosts, domain)
    ensures hosts <= Completed(hosts, domain)
  {
    var c := Completed(hosts, domain);
    assert !Names(hosts, Www(domain)) ==> Www(domain) in c;
    assert !Names(hosts, Cname(domain)) ==> Cname(domain) in c;
    assert forall h <- hosts :: h in c;
    assert c + [] == c;
  }

  /** A healed directive names the old hosts in order, then what was missing; it covers www. and cname. and is left
      alone from then on. A line that is not such a directive is not touched. */
  lemma HealedDirective(line: string, domain: string)
    requires HostName(domain)
    ensures Hosts(line, domain).None? ==> HealedLine(line, domain) == line
    ensures Hosts(line, domain).Some? ==>
              var old_, new_ := Hosts(line, domain).value, Hosts(HealedLine(line, domain), domain);
              && new_ == Some(Completed(old_, domain))
              && old_ <= new_.value
              && Names(new_.value, Www(domain)) && Names(new_.value, Cname(domain))
    ensures !Lacking(HealedLine(line, domain), domain)
  {
    hide Hosts, Completed, Directive;
    if Hosts(line, domain).Some? {
      var hosts := Hosts(line, domain).value;
      var c := Completed(hosts, domain);
      CompletedNames(hosts, domain);
      if Lacking(line, domain) {
        HostsTokens(line, domain);
        CompletedEnd(hosts, domain);
        IndentBlank(line);
        DirectiveReads(Indent(line), c, domain, c[|c| - 1]);
      }
    }
  }

  lemma DirectiveOneLine(line: string, domain: string)
    requires HostName(domain) && '\n' !in line
    ensures '\n' !in HealedLine(line, domain)
  {
    hide Hosts, Completed;
    if Lacking(line, domain) {
      var hosts := Hosts(line, domain).value;
      HostsTokens(line, domain);
      CompletedEnd(hosts, domain);
      var c := Completed(hosts, domain);
      JoinFree(c, " ", {'\n'});
    }
  }

  /** A healed file has the same number of lines, each the healed form of its original, and a second run reports no
      change. */
  lemma SecondHealIsNoOp(body: string, text: string, lines: seq<string>, domain: string)
    requires HostName(domain) && AllHealed(lines, Split(body, '\n'), domain) && text == Join(lines, "\n")
    ensures Split(text, '\n') == lines
    ensures !exists l <- Split(text, '\n') :: Misses(l, domain)
  {
    hide HealedLine, Lacking, Misses;
    SplitFree(body, '\n');
    var orig := Split(body, '\n');
    forall l <- lines
      ensures '\n' !in l && !Misses(l, domain)
    {
      LackingIff(l, domain);
      var i :| 0 <= i < |lines| && lines[i] == l;
      assert orig[i] in orig;
      DirectiveOneLine(orig[i], domain);
      HealedDirective(orig[i], domain);
    }
    SplitJoin(lines, '\n');
  }

  // ---- spelled out ------------------------------------------------------

  /** A name is there when some host is the same up to the case of its letters. */
  lemma NamesIff(hosts: seq<string>, name: string)
    ensures Names(hosts, name) <==> exists h <- hosts :: SameUpToCase(h, name)
  {
    hide ToLower;
    forall h <- hosts
      ensures ToLower(h) == ToLower(name) <==> SameUpToCase(h, name)
    {
      LowerSameIff(h, name);
    }
  }

  /** Lines that do not start with server_name or do not mention the domain stay. */
  lemma OtherLinesKept(line: string, domain: string)
    requires !("server_name" <= TrimSpace(line)) || !Contains(TrimSpace(line), domain)
    ensures HealedLine(line, domain) == line
  {
    hide Contains, Trim;
  }

  /** So do the lines of other directives, such as server_names_hash_max_size. */
  lemma OtherDirectiveKept(line: string, word: string, rest: string, domain: string)
    requires TrimSpace(line) == word + rest && Token(word) && word != "server_name" && (rest != "" ==> rest[0] in SPACE)
    ensures HealedLine(line, domain) == line
  {
    hide Trim, TrimRight, Fields, Contains;
    var trim := word + rest;
    var cleaned := TrimSuffix(TrimRight(trim, ENDING), ";");
    CleanedPrefix(trim);
    if |cleaned| <= |word| {
      assert cleaned == word[..|cleaned|];
      OneField(cleaned);
    } else {
      var less := cleaned[|word|..];
      assert cleaned == word + less && less[0] == rest[0];
      FieldsCons("", word, less);
      assert "" + word + less == cleaned;
    }
  }

  lemma CleanedPrefix(trim: string)
    ensures TrimSuffix(TrimRight(trim, ENDING), ";") <= trim
  {
  }

  lemma OneField(s: string)
    requires Free(s, SPACE)
    ensures |Fields(s)| <= 1
  {
    hide Fields;
    if s == "" {
      FieldsBlank(s);
    } else {
      FieldsCons("", s, "");
      FieldsBlank("");
      assert "" + s + "" == s;
    }
  }

  /** What is appended to a directive with the given hosts. */
  function MissingNames(hosts: seq<string>, domain: string): seq<string> {
    (if exists h <- hosts :: SameUpToCase(h, "www." + domain) then [] else ["www." + domain])
    + (if exists h <- hosts :: SameUpToCase(h, "cname." + domain) then [] else ["cname." + domain])
  }

  /** The text of a directive that lacks a name, after healing: its indent, its hosts and the missing names. */
  lemma HealedText(indent: string, hosts: seq<string>, domain: string, last: string)
    requires HostName(domain) && AllIn(indent, {' ', '\t'})
    requires hosts != [] && (forall h <- hosts :: Token(h)) && last == hosts[|hosts| - 1]
    requires last != "" && last[|last| - 1] !in {' ', '\t', ';'} && Contains(last, domain)
    ensures var old_ := indent + "server_name " + Join(hosts, " ") + ";";
            HealedLine(old_, domain)
            == if MissingNames(hosts, domain) == [] then old_
               else indent + "server_name " + Join(hosts + MissingNames(hosts, domain), " ") + ";"
  {
    hide *;
    var line, missing := Directive(indent, hosts), MissingNames(hosts, domain);
    BlanksAreSpaces(indent);
    EndingIs();
    DirectiveReads(indent, hosts, domain, last);
    CompletedIs(hosts, domain);
    DirectiveIs(indent, hosts);
    DirectiveIs(indent, hosts + missing);
    IndentOf(indent, hosts);
    HealedIs(line, domain, hosts);
    AppendNothing(hosts, missing);
  }

  lemma AppendNothing<T>(a: seq<T>, b: seq<T>)
    ensures a + b == a <==> b == []
  {
    assert |a + b| == |a| + |b|;
  }

  lemma IndentOf(indent: string, hosts: seq<string>)
    requires AllIn(indent, {' ', '\t'})
    ensures Indent(Directive(indent, hosts)) == indent
  {
    hide Indent;
    var rest := "server_name " + (Join(hosts, " ") + ";");
    IndentIs(indent, rest);
    assert Directive(indent, hosts) == indent + rest;
  }

  lemma EndingIs()
    ensures ENDING == {' ', '\t', ';'}
  {
  }

  lemma BlanksAreSpaces(indent: string)
    requires AllIn(indent, {' ', '\t'})
    ensures AllIn(indent, SPACE)
  {
    SpaceChars(' ');
    SpaceChars('\t');
  }

  lemma DirectiveIs(indent: string, hosts: seq<string>)
    ensures Directive(indent, hosts) == indent + "server_name " + Join(hosts, " ") + ";"
  {
  }

  lemma HealedIs(line: string, domain: string, hosts: seq<string>)
    requires Hosts(line, domain) == Some(hosts)
    ensures HealedLine(line, domain)
         == if Completed(hosts, domain) == hosts then line else Directive(Indent(line), Completed(hosts, domain))
  {
    hide Hosts, Completed, Directive, Indent;
  }

  lemma CompletedIs(hosts: seq<string>, domain: string)
    ensures Completed(hosts, domain) == hosts + MissingNames(hosts, domain)
  {
    hide Names, SameUpToCase;
    NamesIff(hosts, "www." + domain);
    NamesIff(hosts, "cname." + domain);
  }

  lemma IndentIs(indent: string, rest: string)
    requires AllIn(indent, {' ', '\t'}) && "server_name " <= rest
    ensures Indent(indent + rest) == indent
  {
    assert rest[0] == 's';
    assert (indent + rest)[..|indent|] == indent;
    LeadLenIs(indent + rest, BLANKS, |indent|);
  }
}
