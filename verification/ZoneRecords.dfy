/** The rrset primitives of the DNS agent and its parser for `pdnsutil list-zone` listings. */
module ZoneRecords {
  import opened Text
  import opened Options
  import opened Lists

  // ---- rrsets ----------------------------------------------------------

  datatype Key = Key(name: string, kind: string)

  /** PowerDNS keeps one TTL per rrset. */
  datatype Rrset = Rrset(ttl: string, values: seq<string>)

  type Zone = map<Key, Rrset>

  /** How a pdnsutil command ends; one that fails changes nothing. */
  datatype Command = Done | Fails(error: string)

  /** One call: an empty value list asks for deletion; `reloads` says whether the final reload succeeds. */
  datatype Op = Op(key: Key, ttl: string, values: seq<string>, command: Command, reloads: bool)

  predicate AlreadyGone(error: string) {
    Contains(ToLower(error), "could not find") || Contains(ToLower(error), "no such")
  }

  /** The state the caller asked for. */
  predicate Holds(z: Zone, op: Op) {
    if op.values == [] then op.key !in z else op.key in z && z[op.key] == Rrset(op.ttl, op.values)
  }

  class Agent {
    var zone: Zone

    constructor (z: Zone)
      ensures zone == z
    {
      zone := z;
    }

    method DeleteDnsRecord(key: Key, command: Command, reloads: bool) returns (ok: bool)
      modifies this
      ensures zone == if command.Done? then old(zone) - {key} else old(zone)
      ensures ok <==> if command.Done? then reloads else AlreadyGone(command.error)
    {
      if command.Fails? {
        return AlreadyGone(command.error);
      }
      zone := zone - {key};
      return reloads;
    }

    method ReplaceDnsRecordSet(op: Op) returns (ok: bool)
      modifies this
      ensures zone == Applied(old(zone), op)
      ensures ok == Accepted(op)
    {
      if op.values == [] {
        ok := DeleteDnsRecord(op.key, op.command, op.reloads);
        return;
      }
      if op.command.Fails? {
        return false;
      }
      zone := zone[op.key := Rrset(op.ttl, op.values)];
      return op.reloads;
    }
  }

  function Applied(z: Zone, op: Op): Zone {
    if op.command.Fails? then z
    else if op.values == [] then z - {op.key}
    else z[op.key := Rrset(op.ttl, op.values)]
  }

  /** The call returns no error. */
  predicate Accepted(op: Op) {
    if op.command.Done? then op.reloads else op.values == [] && AlreadyGone(op.command.error)
  }

  /** A call meets its promise, to leave what was asked for when it returns no error, if and only if it is not the
      deletion of an existing rrset whose command failed with a text taken for an absent one. */
  lemma AcceptedMeansDone(z: Zone, op: Op)
    ensures (Accepted(op) ==> Holds(Applied(z, op), op))
            <==> !(op.values == [] && op.command.Fails? && AlreadyGone(op.command.error) && op.key in z)
  {
  }

  /** The error text of an unrelated failure is taken for an absent rrset. */
  lemma UnrelatedFailureAccepted(z: Zone, key: Key, before: string, after: string)
    requires key in z
    ensures var op := Op(key, "", [], Fails(before + "no such file or directory" + after), true);
            Accepted(op) && !Holds(Applied(z, op), op)
  {
    hide Contains, ToLower;
    var error := "no such file or directory";
    ToLowerConcat(before + error, after);
    ToLowerConcat(before, error);
    NoSuchInside(error);
    ContainsInMiddle(ToLower(before), ToLower(error), ToLower(after), "no such");
  }

  lemma NoSuchInside(error: string)
    requires error == "no such file or directory"
    ensures Contains(ToLower(error), "no such")
  {
    var lower := ToLower(error);
    assert lower[0..] == lower;
    assert lower[..7] == "no such";
    ContainsAt(lower, "no such", 0);
  }

  function Run(z: Zone, ops: seq<Op>): Zone {
    Fold(Applied, z, ops)
  }

  /** The last operation on `key` whose command succeeded. */
  function LastWrite(ops: seq<Op>, key: Key): Option<Op> {
    if ops == [] then None
    else
      var n := |ops| - 1;
      if ops[n].key == key && ops[n].command.Done? then Some(ops[n]) else LastWrite(ops[..n], key)
  }

  /** After any sequence of calls, some of them failing, every rrset is as the last successful command on it left it,
      and untouched ones are as they were. */
  lemma {:induction false} LastWriteWins(z: Zone, ops: seq<Op>, key: Key)
    ensures match LastWrite(ops, key)
            case Some(op) => op in ops && op.key == key && Holds(Run(z, ops), op)
            case None => (key in Run(z, ops) <==> key in z) && (key in z ==> Run(z, ops)[key] == z[key])
  {
    if ops != [] {
      LastWriteWins(z, ops[..|ops| - 1], key);
    }
  }

  /** Deletions are refused with an "already gone" text only when the rrset is absent. */
  predicate Honest(z: Zone, ops: seq<Op>) {
    forall i :: 0 <= i < |ops| ==>
      (Accepted(ops[i]) && ops[i].command.Fails? ==> ops[i].key !in Run(z, ops[..i]))
  }

  /** When every call returned no error, each rrset holds exactly the values of the last call about it. */
  lemma {:induction false} AcceptedLastCallHolds(z: Zone, ops: seq<Op>, i: nat)
    requires Honest(z, ops) && forall op <- ops :: Accepted(op)
    requires i < |ops| && forall j :: i < j < |ops| ==> ops[j].key != ops[i].key
    ensures Holds(Run(z, ops), ops[i])
  {
    var n := |ops| - 1;
    var before := Run(z, ops[..n]);
    assert ops[n] in ops && ops[i] in ops;
    if i < n {
      forall j | 0 <= j < n
        ensures Accepted(ops[..n][j]) && ops[..n][j].command.Fails? ==> ops[..n][j].key !in Run(z, ops[..n][..j])
      {
        assert ops[..n][..j] == ops[..j];
      }
      AcceptedLastCallHolds(z, ops[..n], i);
      assert ops[n].key != ops[i].key;
    } else {
      AcceptedMeansDone(before, ops[n]);
    }
  }

  // ---- reading a listing -----------------------------------------------

  datatype Record = Record(name: string, ttl: string, kind: string, value: string)

  /** An absolute name made relative to the zone; names outside the zone stay as they are. */
  function Relative(name: string, domain: string): string {
    if name == domain then "@"
    else if HasSuffix(name, "." + domain) then TrimSuffix(name, "." + domain)
    else name
  }

  /** The record on a line "name TTL IN TYPE value"; lines with fewer than four fields have none. */
  function LineRecords(line: string, domain: string): seq<Record> {
    var parts := Fields(line);
    if |parts| < 4 then []
    else [Record(Relative(TrimSuffix(parts[0], "."), domain), parts[1], parts[3], Join(parts[4..], " "))]
  }

  function LineReader(domain: string): string -> seq<Record> {
    line => LineRecords(line, domain)
  }

  function Listed(text: string, domain: string): seq<Record> {
    FlatMap(LineReader(domain), Split(text, '\n'))
  }

  method ListZoneRecords(output: string, domain: string) returns (records: seq<Record>)
    ensures records == Listed(output, domain)
  {
    hide Fields, Relative, Trim, FlatMap;
    records := [];
    var lines := Split(TrimSpace(output), '\n');
    NoLines(domain);
    for i := 0 to |lines|
      invariant records == FlatMap(LineReader(domain), lines[..i])
    {
      assert lines[..i + 1] == lines[..i] + [lines[i]];
      FlatMapSnoc(LineReader(domain), lines[..i], lines[i]);
      FieldsTrim(lines[i]);
      var line := TrimSpace(lines[i]);
      if line == "" {
        FieldsBlank(line);
        continue;
      }
      var parts := Fields(line);
      if |parts| < 4 {
        continue;
      }
      var name := TrimSuffix(parts[0], ".");
      var value := "";
      if |parts| > 4 {
        value := Join(parts[4..], " ");
      }
      name := Relative(name, domain);
      records := records + [Record(name, parts[1], parts[3], value)];
    }
    assert lines[..|lines|] == lines;
    TrimmedLists(output, domain);
  }

  lemma NoLines(domain: string)
    ensures FlatMap(LineReader(domain), []) == []
  {
  }

  lemma LineOfFields(line: string, line': string, domain: string)
    requires Fields(line) == Fields(line')
    ensures LineRecords(line, domain) == LineRecords(line', domain)
  {
    hide Fields;
  }

  lemma BlankLine(domain: string)
    ensures LineRecords("", domain) == []
  {
    FieldsBlank("");
  }

  /** Space in front of a listing changes nothing. */
  lemma {:induction false} ListedLeft(pad: string, text: string, domain: string)
    requires AllIn(pad, SPACE)
    ensures Listed(pad + text, domain) == Listed(text, domain)
  {
    if pad == "" {
      assert pad + text == text;
    } else {
      assert pad + text == [pad[0]] + (pad[1..] + text);
      ListedLeft(pad[1..], text, domain);
      ListedLeftOne(pad[0], pad[1..] + text, domain);
    }
  }

  lemma ListedLeftOne(c: char, text: string, domain: string)
    requires c in SPACE
    ensures Listed([c] + text, domain) == Listed(text, domain)
  {
    hide Fields, Relative;
    var lines := Split(text, '\n');
    assert ([c] + text)[1..] == text && ([c] + text)[0] == c;
    if c == '\n' {
      BlankLine(domain);
      assert ([""] + lines)[1..] == lines;
      assert [] + FlatMap(LineReader(domain), lines) == FlatMap(LineReader(domain), lines);
    } else {
      FieldsLeft(c, lines[0]);
      LineOfFields([c] + lines[0], lines[0], domain);
      assert ([[c] + lines[0]] + lines[1..])[1..] == lines[1..];
    }
  }

  lemma FieldsLeft(c: char, s: string)
    requires c in SPACE
    ensures Fields([c] + s) == Fields(s)
  {
    hide Fields;
    var pad, tok, rest := FirstField(s);
    if Fields(s) == [] {
      FieldsBlank([c] + s);
    } else {
      FieldsCons(pad, tok, rest);
      assert [c] + s == [c] + pad + tok + rest;
      FieldsCons([c] + pad, tok, rest);
    }
  }

  /** Space after a listing changes nothing either. */
  lemma {:induction false} ListedRight(text: string, pad: string, domain: string)
    requires AllIn(pad, SPACE)
    ensures Listed(text + pad, domain) == Listed(text, domain)
  {
    if pad == "" {
      assert text + pad == text;
    } else {
      var n := |pad| - 1;
      assert text + pad == text + pad[..n] + [pad[n]];
      ListedRight(text, pad[..n], domain);
      ListedRightOne(text + pad[..n], pad[n], domain);
    }
  }

  lemma ListedRightOne(text: string, c: char, domain: string)
    requires c in SPACE
    ensures Listed(text + [c], domain) == Listed(text, domain)
  {
    hide Fields, Relative, FlatMap, Split;
    var lines := Split(text, '\n');
    var n := |lines| - 1;
    assert lines == lines[..n] + [lines[n]];
    if c == '\n' {
      assert text + [c] == text + ['\n'] + "";
      SplitConcat(text, "", '\n');
      SplitNone("", '\n');
      FlatMapSnoc(LineReader(domain), lines, "");
      BlankLine(domain);
    } else {
      SplitSnoc(text, c, '\n');
      FieldsTail(lines[n], [c]);
      LineOfFields(lines[n] + [c], lines[n], domain);
      FlatMapSnoc(LineReader(domain), lines[..n], lines[n]);
      FlatMapSnoc(LineReader(domain), lines[..n], lines[n] + [c]);
    }
  }

  /** One more character goes to the last part. */
  lemma {:induction false} SplitSnoc(s: string, c: char, sep: char)
    requires c != sep
    ensures var parts := Split(s, sep);
            var n := |parts| - 1;
            Split(s + [c], sep) == parts[..n] + [parts[n] + [c]]
  {
    if s == "" {
      SplitNone([c], sep);
      assert s + [c] == [c] && "" + [c] == [c];
    } else {
      SplitSnoc(s[1..], c, sep);
      assert (s + [c])[1..] == s[1..] + [c] && (s + [c])[0] == s[0];
      ExtendSnoc(s[0], sep, Split(s[1..], sep), c);
    }
  }

  lemma ExtendSnoc(a: char, sep: char, parts: seq<string>, c: char)
    requires |parts| >= 1
    ensures var n := |parts| - 1;
            var more := Extend(a, sep, parts);
            Extend(a, sep, parts[..n] + [parts[n] + [c]]) == more[..|more| - 1] + [more[|more| - 1] + [c]]
  {
    var n := |parts| - 1;
    var last := parts[n] + [c];
    var longer := parts[..n] + [last];
    if a == sep {
      assert ([""] + parts)[..n + 1] == [""] + parts[..n];
      assert [""] + longer == [""] + parts[..n] + [last];
    } else if n == 0 {
      assert longer == [last];
      Assoc([a], parts[0], [c]);
    } else {
      var head := [a] + parts[0];
      assert longer[0] == parts[0] && longer[1..] == parts[1..n] + [last];
      assert ([head] + parts[1..])[..n] == [head] + parts[1..n];
      assert [head] + (parts[1..n] + [last]) == [head] + parts[1..n] + [last];
    }
  }

  lemma TrimmedLists(text: string, domain: string)
    ensures Listed(TrimSpace(text), domain) == Listed(text, domain)
  {
    hide Listed, Trim;
    var left, right := TrimSplits(text, SPACE);
    var t := TrimSpace(text);
    Assoc(left, t, right);
    ListedLeft(left, t + right, domain);
    ListedRight(t, right, domain);
  }

  // ---- the round trip --------------------------------------------------

  /** The name pdnsutil prints, with or without the final dot. */
  function Absolute(name: string, domain: string, dot: bool): string {
    (if name == "@" then domain else name + "." + domain) + if dot then "." else ""
  }

  /** A line of a listing: a record, with its value given by the tokens, or something with fewer than four fields. */
  datatype Item = Entry(record: Record, tokens: seq<string>, dot: bool) | Junk(line: string)

  function Printed(i: Item, domain: string, sep: string): string {
    match i
    case Entry(r, tokens, dot) =>
      Absolute(r.name, domain, dot) + (sep + r.ttl + (sep + "IN" + (sep + r.kind + (sep + Join(tokens, " ")))))
    case Junk(line) => line
  }

  predicate Printable(i: Item) {
    match i
    case Entry(r, tokens, _) =>
      && Token(r.name) && Token(r.ttl) && Token(r.kind)
      && (forall t <- tokens :: Token(t)) && r.value == Join(tokens, " ")
    case Junk(line) => '\n' !in line && |Fields(line)| < 4
  }

  function RecordsOf(items: seq<Item>): seq<Record> {
    if items == [] then []
    else (match items[0] case Entry(r, _, _) => [r] case Junk(_) => []) + RecordsOf(items[1..])
  }

  function PrintedLines(items: seq<Item>, domain: string, sep: string): seq<string> {
    seq(|items|, i requires 0 <= i < |items| => Printed(items[i], domain, sep))
  }

  /** A zone-relative name is recovered, with or without the final dot. */
  lemma RelativeAbsolute(name: string, domain: string, dot: bool)
    requires name != "" && domain != "" && domain[|domain| - 1] != '.'
    ensures Relative(TrimSuffix(Absolute(name, domain, dot), "."), domain) == name
  {
    hide TrimSuffix, HasSuffix;
    var plain := if name == "@" then domain else name + "." + domain;
    assert plain[|plain| - 1] == domain[|domain| - 1];
    FinalDot(plain, dot);
    if name != "@" {
      Under(name, domain);
      assert plain == name + ("." + domain);
    }
  }

  lemma FinalDot(s: string, dot: bool)
    requires s != "" && s[|s| - 1] != '.'
    ensures TrimSuffix(s + if dot then "." else "", ".") == s
  {
    assert s + "" == s;
  }

  lemma Under(name: string, domain: string)
    requires name != ""
    ensures var full := name + ("." + domain);
            full != domain && HasSuffix(full, "." + domain) && TrimSuffix(full, "." + domain) == name
  {
    var full := name + ("." + domain);
    assert |full| > |domain|;
    assert full[|full| - |"." + domain|..] == "." + domain;
    assert full[..|name|] == name;
  }

  lemma AbsoluteToken(name: string, domain: string, dot: bool)
    requires Token(name) && Token(domain)
    ensures Token(Absolute(name, domain, dot))
  {
  }

  lemma PrintedReads(i: Item, domain: string, sep: string)
    requires Printable(i) && Token(domain) && domain[|domain| - 1] != '.'
    requires AllIn(sep, SPACE) && sep != "" && '\n' !in sep
    ensures LineRecords(Printed(i, domain, sep), domain) == match i case Entry(r, _, _) => [r] case Junk(_) => []
  {
    hide Fields, Absolute, Join, Relative;
    if i.Entry? {
      var name := Absolute(i.record.name, domain, i.dot);
      var value := Join(i.tokens, " ");
      AbsoluteToken(i.record.name, domain, i.dot);
      RelativeAbsolute(i.record.name, domain, i.dot);
      FiveFields(name, i.record.ttl, i.record.kind, value, i.tokens, sep);
      var parts := Fields(Printed(i, domain, sep));
      assert parts[4..] == i.tokens;
    }
  }

  lemma FiveFields(name: string, ttl: string, kind: string, value: string, tokens: seq<string>, sep: string)
    requires Token(name) && Token(ttl) && Token(kind) && value == Join(tokens, " ") && forall t <- tokens :: Token(t)
    requires AllIn(sep, SPACE) && sep != ""
    ensures Fields(name + (sep + ttl + (sep + "IN" + (sep + kind + (sep + value))))) == [name, ttl, "IN", kind] + tokens
  {
    hide Fields, Join;
    InToken();
    FieldsJoin(sep, tokens, "");
    var t4 := sep + value;
    assert sep + value + "" == t4;
    FieldsCons(sep, kind, t4);
    var t3 := sep + kind + t4;
    FieldsCons(sep, "IN", t3);
    var t2 := sep + "IN" + t3;
    FieldsCons(sep, ttl, t2);
    var t1 := sep + ttl + t2;
    FieldsCons("", name, t1);
    assert "" + name == name;
    assert [name] + ([ttl] + (["IN"] + ([kind] + tokens))) == [name, ttl, "IN", kind] + tokens;
  }

  lemma InToken()
    ensures Token("IN")
  {
  }

  lemma NoNewline(i: Item, domain: string, sep: string)
    requires Printable(i) && Token(domain) && '\n' !in sep
    ensures '\n' !in Printed(i, domain, sep)
  {
    if i.Entry? {
      AbsoluteToken(i.record.name, domain, i.dot);
      hide Absolute, Join;
      JoinFree(i.tokens, " ", {'\n'});
      TokenNoNewline(i.record.ttl);
      TokenNoNewline(i.record.kind);
      TokenNoNewline(Absolute(i.record.name, domain, i.dot));
      FreeOf(Join(i.tokens, " "), '\n');
      assert '\n' !in "IN";
    }
  }

  lemma TokenNoNewline(s: string)
    requires Token(s)
    ensures '\n' !in s
  {
    assert '\n' in SPACE;
  }

  lemma FreeOf(s: string, c: char)
    requires Free(s, {c})
    ensures c !in s
  {
  }

  /** Reading back a printed listing gives its records in order, whatever separates the fields, and ignores every line
      with fewer than four fields. */
  lemma {:induction false} ListingReadsBack(items: seq<Item>, domain: string, sep: string)
    requires Token(domain) && domain[|domain| - 1] != '.'
    requires AllIn(sep, SPACE) && sep != "" && '\n' !in sep
    requires forall i <- items :: Printable(i)
    ensures Listed(Join(PrintedLines(items, domain, sep), "\n"), domain) == RecordsOf(items)
  {
    hide Printed, Printable, LineRecords, FlatMap;
    var lines := PrintedLines(items, domain, sep);
    forall k | 0 <= k < |lines|
      ensures '\n' !in lines[k]
    {
      assert items[k] in items && lines[k] == Printed(items[k], domain, sep);
      NoNewline(items[k], domain, sep);
    }
    if items == [] {
      BlankLine(domain);
      FlatMapSnoc(LineReader(domain), [], "");
      NoLines(domain);
      assert [] + [""] == [""] && lines == [] && Split("", '\n') == [""];
    } else {
      SplitJoin(lines, '\n');
      LinesReadBack(items, domain, sep);
    }
  }

  lemma {:induction false} LinesReadBack(items: seq<Item>, domain: string, sep: string)
    requires Token(domain) && domain[|domain| - 1] != '.'
    requires AllIn(sep, SPACE) && sep != "" && '\n' !in sep
    requires forall i <- items :: Printable(i)
    ensures FlatMap(LineReader(domain), PrintedLines(items, domain, sep)) == RecordsOf(items)
  {
    hide Printed, Printable, LineRecords;
    if items != [] {
      HeadIn(items);
      PrintedReads(items[0], domain, sep);
      LinesReadBack(items[1..], domain, sep);
      assert PrintedLines(items, domain, sep)[1..] == PrintedLines(items[1..], domain, sep);
    }
  }

  // ---- spelled out ------------------------------------------------------

  /** A failed deletion is taken for an absent rrset exactly when its text says "could not find" or "no such", in
      any case of the letters. */
  lemma AlreadyGoneIff(error: string)
    ensures AlreadyGone(error) <==> Says(error, "could not find") || Says(error, "no such")
  {
    hide Contains, ToLower, Says;
    SmallTexts();
    SaysIff(error, "could not find");
    SaysIff(error, "no such");
  }

  lemma SmallTexts()
    ensures Small("could not find") && Small("no such")
  {
  }
}
