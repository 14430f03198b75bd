/** `bzpanel mail-ssl`: rewrites the Postfix map, then the Dovecot file, stopping at the first failure. */
module MailSsl {
  import opened Text
  import opened Lists
  import opened Options
  import opened DovecotSni
  import opened PostfixSni

  const MARK := "# Managed by Betazen Server Panel"
  const LINE1 := MARK + " — do not hand-edit."
  const LINE2A := "# One local_name block per "
  const LINE2B := "mail.<domain> with its own LE cert."
  const LINE2 := LINE2A + LINE2B
  const LINE3 := "# Updated by `bzpanel mail-ssl <domain>`."
  const HEADING := LINE1 + "\n" + (LINE2 + "\n" + LINE3)

  predicate CommentLine(l: string) {
    l != "" && l[0] == '#' && '\n' !in l && '{' !in l
  }

  lemma HeadingOf(mark: string, l1: string, l2: string, l3: string)
    requires CommentLine(l1) && CommentLine(l2) && CommentLine(l3) && mark != "" && mark <= l1
    ensures Heading(mark, l1 + "\n" + (l2 + "\n" + l3))
  {
    SplitNone(l1, '\n');
    SplitNone(l2, '\n');
    SplitNone(l3, '\n');
    SplitConcat(l2, l3, '\n');
    SplitConcat(l1, l2 + "\n" + l3, '\n');
    var h := l1 + "\n" + (l2 + "\n" + l3);
    assert h[|h| - 1] == l3[|l3| - 1];
    assert forall l <- [l1, l2, l3] :: !OpensBlock(l);
  }

  lemma Line1Ok()
    ensures CommentLine(LINE1) && MARK != "" && MARK <= LINE1
  {
  }

  lemma Line2Ok()
    ensures CommentLine(LINE2)
  {
    assert '{' !in LINE2A;
    assert '{' !in LINE2B;
  }

  lemma Line3Ok()
    ensures CommentLine(LINE3)
  {
  }

  lemma HeadingOk()
    ensures Heading(MARK, HEADING)
  {
    Line1Ok();
    Line2Ok();
    Line3Ok();
    HeadingOf(MARK, LINE1, LINE2, LINE3);
  }

  // ---- the host name of a call -----------------------------------------

  predicate Alnum(c: char) {
    'a' <= c <= 'z' || 'A' <= c <= 'Z' || '0' <= c <= '9'
  }

  predicate Label(s: string) {
    && 1 <= |s| <= 63 && Alnum(s[0]) && Alnum(s[|s| - 1])
    && forall i :: 0 <= i < |s| ==> Alnum(s[i]) || s[i] == '-'
  }

  predicate ValidDomain(s: string) {
    var labels := Split(s, '.');
    |labels| >= 2 && forall l <- labels :: Label(l)
  }

  function TrimPrefix(s: string, prefix: string): string {
    if prefix <= s then s[|prefix|..] else s
  }

  /** The argument without outer spaces, a leading "mail." and a trailing dot. */
  function Stripped(arg: string): string {
    TrimSuffix(TrimPrefix(TrimSpace(arg), "mail."), ".")
  }

  /** The host the call is about, if the domain is accepted; the check ignores outer spaces of the domain. */
  function MailHost(arg: string): Option<string> {
    if ValidDomain(TrimSpace(Stripped(arg))) then Some("mail." + Stripped(arg)) else None
  }

  predicate DomainChar(c: char) {
    Alnum(c) || c == '-' || c == '.'
  }

  predicate DomainText(s: string) {
    && s != "" && Alnum(s[0]) && Alnum(s[|s| - 1])
    && forall i :: 0 <= i < |s| ==> DomainChar(s[i])
  }

  lemma {:induction false} JoinedLabels(labels: seq<string>)
    requires labels != [] && forall l <- labels :: Label(l)
    ensures DomainText(Join(labels, "."))
  {
    assert labels[0] in labels;
    if |labels| > 1 {
      JoinedLabels(labels[1..]);
      var rest := Join(labels[1..], ".");
      assert Join(labels, ".") == labels[0] + "." + rest;
    }
  }

  lemma ValidDomainText(s: string)
    requires ValidDomain(s)
    ensures DomainText(s) && Clean(s)
  {
    JoinSplit(s, '.');
    JoinedLabels(Split(s, '.'));
  }

  lemma PrefixClean(d: string)
    requires Clean(d)
    ensures Clean("mail." + d)
  {
  }

  /** An accepted host fits both file formats unless stripping left a space at an end of the domain. */
  lemma HostCleanIffBare(arg: string)
    requires MailHost(arg).Some?
    ensures Clean(MailHost(arg).value) <==> Bare(Stripped(arg), SPACE)
  {
    var d := Stripped(arg);
    var h := "mail." + d;
    TrimBare(d, SPACE);
    ValidDomainText(TrimSpace(d));
    if Bare(d, SPACE) {
      PrefixClean(d);
    } else {
      assert h[5] == d[0] && h[|h| - 1] == d[|d| - 1];
    }
  }

  /** Such a space does get through: "mail. " in front of any valid domain is accepted as the host it spells. */
  lemma SpacedHostAccepted(domain: string)
    requires ValidDomain(domain)
    ensures MailHost("mail. " + domain) == Some("mail. " + domain) && !Clean("mail. " + domain)
  {
    var d := " " + domain;
    var arg := "mail." + d;
    assert arg == "mail. " + domain;
    ValidDomainText(domain);
    TrimBare(arg, SPACE);
    assert arg[5..] == d && d[|d| - 1] == domain[|domain| - 1];
    assert TrimSuffix(d, ".") == d;
    TrimPad(" ", domain, "", SPACE);
    assert " " + domain + "" == d;
    assert arg[5] == ' ';
  }

  // ---- one call --------------------------------------------------------

  /** The paths certbot uses for a host. */
  function PathsOf(host: string): Entry {
    Entry(host, "/etc/letsencrypt/live/" + host + "/fullchain.pem", "/etc/letsencrypt/live/" + host + "/privkey.pem")
  }

  lemma PathsClean(host: string)
    requires Clean(host)
    ensures CleanEntry(PathsOf(host))
  {
    assert Clean("/etc/letsencrypt/live/");
    CleanAround("/etc/letsencrypt/live/", host, "/fullchain.pem");
    CleanAround("/etc/letsencrypt/live/", host, "/privkey.pem");
  }

  lemma CleanAround(before: string, s: string, after: string)
    requires Clean(before) && Clean(s) && Clean(after)
    ensures Clean(before + s + after)
  {
  }

  /** What the surroundings of a call do: whether a certificate is on disk or issued, and which steps succeed. An error
      in reading either file is not noticed: the upsert starts from an empty text. */
  datatype Call = Call(arg: string, certReady: bool, mapRead: bool, mapWritten: bool, postconfOk: bool,
                       confRead: bool, confWritten: bool)

  datatype Files = Files(conf: string, sniMap: string)

  predicate Succeeds(c: Call) {
    MailHost(c.arg).Some? && c.certReady && c.mapWritten && c.postconfOk && c.confWritten
  }

  function ReadText(text: string, read: bool): string {
    if read then text else ""
  }

  function WithMap(f: Files, c: Call, host: string): Files {
    f.(sniMap := PostfixText(ReadText(f.sniMap, c.mapRead), PathsOf(host)))
  }

  function WithConf(mark: string, heading: string, f: Files, c: Call, host: string): Files {
    f.(conf := DovecotText(mark, heading + "\n\n", ReadText(f.conf, c.confRead), PathsOf(host)))
  }

  function AfterCall(mark: string, heading: string, f: Files, c: Call): Files {
    match MailHost(c.arg)
    case None => f
    case Some(host) =>
      if !c.certReady || !c.mapWritten then f
      else if !c.postconfOk || !c.confWritten then WithMap(f, c, host)
      else WithConf(mark, heading, WithMap(f, c, host), c, host)
  }

  class SniFiles {
    const mark: string
    const heading: string
    var conf: string
    var sniMap: string

    function Contents(): Files
      reads this
    {
      Files(conf, sniMap)
    }

    constructor (conf: string, sniMap: string)
      ensures Heading(mark, heading) && Contents() == Files(conf, sniMap)
    {
      HeadingOk();
      this.mark, this.heading, this.conf, this.sniMap := MARK, HEADING, conf, sniMap;
    }

    method Run(c: Call) returns (ok: bool)
      modifies this
      ensures ok == Succeeds(c)
      ensures Contents() == AfterCall(mark, heading, old(Contents()), c)
    {
      var named := MailHost(c.arg);
      if named.None? || !c.certReady {
        return false;
      }
      var e := PathsOf(named.value);
      var body := PostfixUpsert(ReadText(sniMap, c.mapRead), e);
      if !c.mapWritten {
        return false;
      }
      sniMap := body;
      if !c.postconfOk {
        return false;
      }
      var out := DovecotUpsert(mark, heading, ReadText(conf, c.confRead), e);
      if !c.confWritten {
        return false;
      }
      conf := out;
      return true;
    }
  }

  // ---- one call --------------------------------------------------------

  /** What the Dovecot file selects: nothing until the panel owns it. */
  function ConfMap(mark: string, f: Files): map<string, (string, string)> {
    Denoted(DovecotEntries(mark, f.conf))
  }

  ghost predicate ConfOk(mark: string, heading: string, f: Files) {
    Denotes(mark, heading, f.conf, ConfMap(mark, f)) || !(mark <= f.conf)
  }

  /** The Dovecot hosts are among the Postfix hosts, and both files give every host its own certbot paths. */
  ghost predicate Agree(mark: string, f: Files) {
    var conf, pf := ConfMap(mark, f), PostfixDenoted(f.sniMap);
    && conf.Keys <= pf.Keys
    && (forall h <- conf :: conf[h] == (PathsOf(h).cert, PathsOf(h).key))
    && (forall h <- pf :: pf[h] == PathsOf(h).key + "," + PathsOf(h).cert)
  }

  ghost predicate SameHosts(mark: string, f: Files) {
    ConfMap(mark, f).Keys == PostfixDenoted(f.sniMap).Keys
  }

  /** Calls whose host fits the file formats. */
  predicate Fits(c: Call) {
    MailHost(c.arg).Some? ==> Clean(MailHost(c.arg).value)
  }

  /** The call does not write the Postfix map, or it has read it, or Dovecot is left with no host but the call's: it
      rewrites the Dovecot file without having read it, or there is no other host in it. */
  predicate Safe(mark: string, f: Files, c: Call) {
    WritesMap(c) ==>
      || c.mapRead
      || (WritesConf(c) && !c.confRead)
      || ConfMap(mark, f).Keys <= {MailHost(c.arg).value}
  }

  /** An upsert of the Dovecot text that was read, or of none, is an update of the map it denotes, or of none. */
  lemma ConfStep(mark: string, heading: string, f: Files, c: Call, host: string)
    requires Heading(mark, heading) && ConfOk(mark, heading, f) && Clean(host)
    ensures var g := WithConf(mark, heading, f, c, host);
            && ConfOk(mark, heading, g)
            && ConfMap(mark, g)
               == (if c.confRead then ConfMap(mark, f) else map[])[host := (PathsOf(host).cert, PathsOf(host).key)]
  {
    hide DovecotText, Heading, DovecotEntries, PathsOf, CleanEntry;
    var prior := ReadText(f.conf, c.confRead);
    PathsClean(host);
    MarkedText(mark, heading);
    assert PathsOf(host).host == host by {
      PathsHost(host);
    }
    UpsertEntries(mark, heading, prior, PathsOf(host));
    PutLast(DovecotEntries(mark, prior), PathsOf(host));
    NoEntries(mark);
  }

  lemma PathsHost(host: string)
    ensures PathsOf(host).host == host
  {
  }

  lemma MarkedText(mark: string, heading: string)
    requires Heading(mark, heading)
    ensures mark != "" && !(mark <= "")
  {
  }

  lemma NoEntries(mark: string)
    ensures mark != "" ==> Denoted(DovecotEntries(mark, "")) == map[]
  {
  }

  /** The same for the Postfix map. */
  lemma MapStep(f: Files, c: Call, host: string)
    requires Clean(host)
    ensures PostfixDenoted(WithMap(f, c, host).sniMap)
         == var before := if c.mapRead then PostfixDenoted(f.sniMap) else map[];
            before[host := PathsOf(host).key + "," + PathsOf(host).cert]
  {
    hide PostfixText, PostfixDenoted, CleanEntry;
    PathsClean(host);
    PostfixUpsertDenotes(ReadText(f.sniMap, c.mapRead), PathsOf(host));
    NothingDenoted();
  }

  lemma NothingDenoted()
    ensures PostfixDenoted("") == map[]
  {
    FieldsBlank("");
    MergeOne(LineMeaning, "");
  }

  predicate WritesMap(c: Call) {
    MailHost(c.arg).Some? && c.certReady && c.mapWritten
  }

  predicate WritesConf(c: Call) {
    WritesMap(c) && c.postconfOk && c.confWritten
  }

  /** What both files denote after a call. */
  lemma CallMaps(mark: string, heading: string, f: Files, c: Call)
    requires Heading(mark, heading) && ConfOk(mark, heading, f) && Fits(c)
    ensures var g := AfterCall(mark, heading, f, c);
            && ConfOk(mark, heading, g)
            && ConfMap(mark, g)
               == (if WritesConf(c) then
                     var e := PathsOf(MailHost(c.arg).value);
                     (if c.confRead then ConfMap(mark, f) else map[])[MailHost(c.arg).value := (e.cert, e.key)]
                   else
                     ConfMap(mark, f))
            && PostfixDenoted(g.sniMap)
               == (if WritesMap(c) then
                     var e := PathsOf(MailHost(c.arg).value);
                     (if c.mapRead then PostfixDenoted(f.sniMap) else map[])
                     [MailHost(c.arg).value := e.key + "," + e.cert]
                   else
                     PostfixDenoted(f.sniMap))
  {
    hide PathsOf, PostfixDenoted, DovecotEntries, Denotes, MailHost, Clean, Heading;
    if WritesMap(c) {
      var host := MailHost(c.arg).value;
      MapStep(f, c, host);
      if WritesConf(c) {
        ConfStep(mark, heading, WithMap(f, c, host), c, host);
      }
    }
  }

  lemma HostsAfter<T>(dovecot: set<T>, postfix: set<T>, host: T, mapRead: bool, rewritten: bool, confRead: bool)
    requires dovecot <= postfix
    ensures var p := (if mapRead then postfix else {}) + {host};
            var d := if rewritten then (if confRead then dovecot else {}) + {host} else dovecot;
            && (d <= p <==> mapRead || (rewritten && !confRead) || dovecot <= {host})
            && (rewritten && dovecot == postfix ==> (d == p <==> mapRead == confRead || dovecot <= {host}))
  {
  }

  /** A call keeps the two files in agreement if and only if it is safe. */
  lemma CallKeepsIffSafe(mark: string, heading: string, f: Files, c: Call)
    requires Heading(mark, heading) && ConfOk(mark, heading, f) && Fits(c) && Agree(mark, f)
    ensures ConfOk(mark, heading, AfterCall(mark, heading, f, c))
    ensures Agree(mark, AfterCall(mark, heading, f, c)) <==> Safe(mark, f, c)
  {
    hide PathsOf, PostfixDenoted, ConfMap, ConfOk, MailHost, Clean, Heading, AfterCall;
    CallMaps(mark, heading, f, c);
    if WritesMap(c) {
      var dovecot, postfix := ConfMap(mark, f).Keys, PostfixDenoted(f.sniMap).Keys;
      HostsAfter(dovecot, postfix, MailHost(c.arg).value, c.mapRead, WritesConf(c), c.confRead);
    }
  }

  /** A successful call keeps the two files on the same hosts if and only if it read both files or neither, or there is
      no other host. */
  lemma SuccessKeepsSameHostsIff(mark: string, heading: string, f: Files, c: Call)
    requires Heading(mark, heading) && ConfOk(mark, heading, f) && Fits(c)
    requires SameHosts(mark, f) && Succeeds(c)
    ensures SameHosts(mark, AfterCall(mark, heading, f, c))
            <==> (c.mapRead == c.confRead || ConfMap(mark, f).Keys <= {MailHost(c.arg).value})
  {
    hide PathsOf, PostfixDenoted, ConfMap, ConfOk, MailHost, Clean, Heading, AfterCall;
    CallMaps(mark, heading, f, c);
    var g, host := AfterCall(mark, heading, f, c), MailHost(c.arg).value;
    var dovecot, postfix := ConfMap(mark, f).Keys, PostfixDenoted(f.sniMap).Keys;
    assert ConfMap(mark, g).Keys == (if c.confRead then dovecot else {}) + {host};
    assert PostfixDenoted(g.sniMap).Keys == (if c.mapRead then postfix else {}) + {host};
    HostsAfter(dovecot, postfix, host, c.mapRead, true, c.confRead);
  }

  // ---- spelled out ------------------------------------------------------

  /** A label has at most 63 characters, letters and digits at its ends, and hyphens only between them. */
  lemma LabelEdges(s: string)
    ensures |s| > 63 ==> !Label(s)
    ensures 1 <= |s| <= 63 && (forall i :: 0 <= i < |s| ==> Alnum(s[i])) ==> Label(s)
    ensures Label("a-b") && !Label("-a") && !Label("a-") && !Label("a_b") && !Label("")
    ensures Alnum('a') && Alnum('Z') && Alnum('0') && !Alnum('_') && !Alnum('.') && !Alnum(' ')
  {
    assert "a_b"[1] == '_';
  }

  /** An accepted domain may be given with a final dot, and with "mail." in front. */
  lemma HostForms(d: string)
    requires ValidDomain(d)
    ensures !("mail." <= d) ==> MailHost(d) == Some("mail." + d) && MailHost(d + ".") == Some("mail." + d)
    ensures MailHost("mail." + d) == Some("mail." + d) && MailHost("mail." + d + ".") == Some("mail." + d)
  {
    hide ValidDomain, MailHost;
    if !("mail." <= d) {
      HostForm(d, d, "");
      HostForm(d, d, ".");
    }
    HostForm(d, "mail." + d, "");
    HostForm(d, "mail." + d, ".");
    assert d + "" == d && "mail." + d + "" == "mail." + d;
  }

  lemma HostForm(d: string, given: string, dot: string)
    requires ValidDomain(d) && dot in {"", "."}
    requires given == "mail." + d || (given == d && !("mail." <= d))
    ensures MailHost(given + dot) == Some("mail." + d)
  {
    hide ValidDomain, Stripped, DomainText, Trim;
    ValidDomainText(d);
    NotMail(d);
    StrippedForm(d, given, dot);
    BareDomain(d);
    TrimBare(d, SPACE);
  }

  lemma NotMail(d: string)
    requires ValidDomain(d)
    ensures d != "mail"
  {
    SplitNone("mail", '.');
  }

  lemma BareDomain(d: string)
    requires DomainText(d)
    ensures d != "" && Bare(d, SPACE) && d[|d| - 1] != '.'
  {
    SpaceChars(d[0]);
    SpaceChars(d[|d| - 1]);
  }

  lemma StrippedForm(d: string, given: string, dot: string)
    requires DomainText(d) && d != "mail" && dot in {"", "."}
    requires given == "mail." + d || (given == d && !("mail." <= d))
    ensures Stripped(given + dot) == d
  {
    hide Trim, DomainText, IsSpace;
    BareDomain(d);
    BareArg(d, given, dot);
    TrimBare(given + dot, SPACE);
    PrefixStripped(d, given, dot);
    assert d + "" == d;
    assert TrimSuffix(d + dot, ".") == d;
  }

  lemma BareArg(d: string, given: string, dot: string)
    requires d != "" && Bare(d, SPACE) && dot in {"", "."} && given in {d, "mail." + d}
    ensures Bare(given + dot, SPACE)
  {
    var arg, name := given + dot, "mail.";
    assert (name + d)[0] == 'm' && (name + d)[|name + d| - 1] == d[|d| - 1];
    assert arg[0] == given[0] && arg[|arg| - 1] == if dot == "" then given[|given| - 1] else '.';
    SpaceChars('m');
    SpaceChars('.');
  }

  lemma PrefixStripped(d: string, given: string, dot: string)
    requires dot in {"", "."} && d != "" && d != "mail"
    requires given == "mail." + d || (given == d && !("mail." <= d))
    ensures TrimPrefix(given + dot, "mail.") == d + dot
  {
    var name := "mail.";
    if given == name + d {
      assert (given + dot)[5..] == d + dot;
    } else {
      ShortPrefix(d, dot, "mail");
    }
  }

  lemma ShortPrefix(d: string, dot: string, front: string)
    requires dot in {"", "."}
    ensures front + "." <= d + dot ==> front + "." <= d || d == front
  {
    var p := front + ".";
    if p <= d + dot {
      if |d| >= |p| {
        assert d[..|p|] == (d + dot)[..|p|];
      } else {
        assert d == (d + dot)[..|d|] && p[..|d|] == (d + dot)[..|d|];
      }
    }
  }

  /** What a successful call leaves on disk for its host: in the Postfix map the key and then the certificate, in the
      Dovecot file a block with the certificate and the key under their own settings. */
  lemma CallWrites(mark: string, heading: string, f: Files, c: Call)
    requires Heading(mark, heading) && Fits(c) && Succeeds(c)
    ensures var g, host := AfterCall(mark, heading, f, c), MailHost(c.arg).value;
            var cert := "/etc/letsencrypt/live/" + host + "/fullchain.pem";
            var key := "/etc/letsencrypt/live/" + host + "/privkey.pem";
            && (exists before :: g.conf == before + FourLines(host, cert, key))
            && host in PostfixDenoted(g.sniMap) && PostfixDenoted(g.sniMap)[host] == key + "," + cert
            && host + " " + key + "," + cert in Split(g.sniMap, '\n')
  {
    hide PostfixText, PostfixDenoted, DovecotText, MailHost, Clean, FourLines;
    var host := MailHost(c.arg).value;
    MapStep(f, c, host);
    var conf := ReadText(f.conf, c.confRead);
    DovecotTextIs(mark, heading + "\n\n", conf, PathsOf(host));
    EndsWithBlock(WithoutBlock(if mark <= conf then conf else heading + "\n\n", host), PathsOf(host));
    PathsClean(host);
    LineWritten(ReadText(f.sniMap, c.mapRead), PathsOf(host));
  }

  // ---- every run -------------------------------------------------------

  /** The two files after the calls. */
  function AfterCalls(mark: string, heading: string, start: Files, calls: seq<Call>): Files {
    if calls == [] then start
    else
      var n := |calls| - 1;
      AfterCall(mark, heading, AfterCalls(mark, heading, start, calls[..n]), calls[n])
  }

  lemma NextCall(mark: string, heading: string, start: Files, calls: seq<Call>, k: nat)
    requires k < |calls|
    ensures AfterCalls(mark, heading, start, calls[..k + 1])
         == AfterCall(mark, heading, AfterCalls(mark, heading, start, calls[..k]), calls[k])
  {
    assert calls[..k + 1][..k] == calls[..k];
  }

  /** Stores that name no host. */
  ghost predicate Unused(mark: string, f: Files) {
    !(mark <= f.conf) && PostfixDenoted(f.sniMap) == map[]
  }

  lemma UnusedAgree(mark: string, heading: string, f: Files)
    requires Unused(mark, f)
    ensures ConfOk(mark, heading, f) && Agree(mark, f) && SameHosts(mark, f)
  {
    hide PathsOf;
  }

  lemma {:induction false} SafeSoFar(mark: string, heading: string, start: Files, calls: seq<Call>, k: nat)
    requires Heading(mark, heading) && Unused(mark, start) && k <= |calls|
    requires forall c <- calls :: Fits(c)
    requires forall j :: 0 <= j < k ==> Safe(mark, AfterCalls(mark, heading, start, calls[..j]), calls[j])
    ensures var f := AfterCalls(mark, heading, start, calls[..k]);
            && ConfOk(mark, heading, f) && Agree(mark, f)
            && ((forall j :: 0 <= j < k ==> Succeeds(calls[j]) && calls[j].mapRead == calls[j].confRead) ==>
                  SameHosts(mark, f))
  {
    hide ConfOk, Agree, SameHosts, Safe, Unused, Heading, Fits, AfterCall, Succeeds;
    if k == 0 {
      UnusedAgree(mark, heading, start);
    } else {
      var f := AfterCalls(mark, heading, start, calls[..k - 1]);
      SafeSoFar(mark, heading, start, calls, k - 1);
      NextCall(mark, heading, start, calls, k - 1);
      CallKeepsIffSafe(mark, heading, f, calls[k - 1]);
      if SameHosts(mark, f) && Succeeds(calls[k - 1]) {
        SuccessKeepsSameHostsIff(mark, heading, f, calls[k - 1]);
      }
    }
  }

  /** From stores that name no host, whatever steps of the calls fail: after every call of a run Dovecot's hosts are
      among Postfix's, with both files giving each host its own paths, if and only if every call was safe when it
      was made. If every call succeeded and read both files or neither, the two files denote the same map. */
  lemma StoresAgreeIffSafe(mark: string, heading: string, start: Files, calls: seq<Call>)
    requires Heading(mark, heading) && Unused(mark, start) && forall c <- calls :: Fits(c)
    ensures (forall k :: 0 <= k <= |calls| ==> Agree(mark, AfterCalls(mark, heading, start, calls[..k])))
       <==> (forall k :: 0 <= k < |calls| ==> Safe(mark, AfterCalls(mark, heading, start, calls[..k]), calls[k]))
    ensures (forall c <- calls :: Succeeds(c) && c.mapRead == c.confRead) ==>
              var f := AfterCalls(mark, heading, start, calls); Agree(mark, f) && SameHosts(mark, f)
  {
    hide ConfOk, Agree, SameHosts, Safe, Unused, Heading, Fits, AfterCall, Succeeds, AfterCalls;
    if k :| 0 <= k < |calls| && !Safe(mark, AfterCalls(mark, heading, start, calls[..k]), calls[k]) {
      var n := FirstUnsafe(mark, heading, start, calls, k);
      SafeSoFar(mark, heading, start, calls, n);
      NextCall(mark, heading, start, calls, n);
      CallKeepsIffSafe(mark, heading, AfterCalls(mark, heading, start, calls[..n]), calls[n]);
    } else {
      forall k | 0 <= k <= |calls|
        ensures Agree(mark, AfterCalls(mark, heading, start, calls[..k]))
      {
        SafeSoFar(mark, heading, start, calls, k);
      }
    }
    if forall c <- calls :: Succeeds(c) && c.mapRead == c.confRead {
      forall k | 0 <= k < |calls|
        ensures Safe(mark, AfterCalls(mark, heading, start, calls[..k]), calls[k])
      {
        ReadBothSafe(mark, AfterCalls(mark, heading, start, calls[..k]), calls[k]);
      }
      SafeSoFar(mark, heading, start, calls, |calls|);
      assert calls[..|calls|] == calls;
    }
  }

  lemma ReadBothSafe(mark: string, f: Files, c: Call)
    requires c.mapRead || (Succeeds(c) && !c.confRead)
    ensures Safe(mark, f, c)
  {
  }

  lemma {:induction false} FirstUnsafe(mark: string, heading: string, start: Files, calls: seq<Call>,
                                       k: nat) returns (n: nat)
    requires k < |calls| && !Safe(mark, AfterCalls(mark, heading, start, calls[..k]), calls[k])
    ensures n < |calls| && !Safe(mark, AfterCalls(mark, heading, start, calls[..n]), calls[n])
    ensures forall j :: 0 <= j < n ==> Safe(mark, AfterCalls(mark, heading, start, calls[..j]), calls[j])
  {
    hide Safe, AfterCalls;
    if j :| 0 <= j < k && !Safe(mark, AfterCalls(mark, heading, start, calls[..j]), calls[j]) {
      n := FirstUnsafe(mark, heading, start, calls, j);
    } else {
      n := k;
    }
  }

  /** One unread Postfix map is enough: after a successful call for one host, a call for another that fails to read the
      map leaves Postfix without the first host, which Dovecot keeps. */
  lemma UnreadMapLosesHost(mark: string, heading: string, start: Files, first: Call, second: Call)
    requires Heading(mark, heading) && Unused(mark, start) && Fits(first) && Fits(second)
    requires Succeeds(first) && Succeeds(second) && MailHost(first.arg) != MailHost(second.arg)
    requires first.mapRead && first.confRead && !second.mapRead && second.confRead
    ensures var f := AfterCall(mark, heading, AfterCall(mark, heading, start, first), second);
            var host := MailHost(first.arg).value;
            host in ConfMap(mark, f) && host !in PostfixDenoted(f.sniMap) && !Agree(mark, f)
  {
    hide PathsOf, PostfixDenoted, ConfMap, ConfOk, MailHost, Clean, Heading, AfterCall, Agree;
    UnusedAgree(mark, heading, start);
    CallMaps(mark, heading, start, first);
    CallMaps(mark, heading, AfterCall(mark, heading, start, first), second);
    Disagree(mark, AfterCall(mark, heading, AfterCall(mark, heading, start, first), second), MailHost(first.arg).value);
  }

  lemma Disagree(mark: string, f: Files, host: string)
    ensures host in ConfMap(mark, f) && host !in PostfixDenoted(f.sniMap) ==> !Agree(mark, f)
  {
  }
}
