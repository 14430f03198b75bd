/** The retrofit that adds the branded error-page include to every existing nginx vhost. */
module Vhosts {
  import opened Text
  import opened Options

  // ---- the line automaton ----------------------------------------------

  predicate Opens(line: string) {
    "server {" <= TrimSpace(line) || TrimSpace(line) == "server{"
  }

  predicate Names(line: string) {
    "server_name " <= TrimSpace(line)
  }

  lemma OpensOrNames(line: string)
    ensures !(Opens(line) && Names(line))
  {
    assert "server {"[6] == ' ' && "server{"[6] == '{' && "server_name "[6] == '_';
  }

  /** Line `j` opens a server block, and up to line `i` there is neither another opening nor a server_name. */
  predicate ArmedBy(lines: seq<string>, j: nat, i: nat) {
    j < i <= |lines| && Opens(lines[j]) && forall k: nat :: j < k < i ==> !Opens(lines[k]) && !Names(lines[k])
  }

  ghost predicate Armed(lines: seq<string>, i: nat) {
    exists j: nat :: ArmedBy(lines, j, i)
  }

  /** Line `i` is the first server_name line after the nearest server opening above it. */
  ghost predicate Due(lines: seq<string>, i: nat) {
    i < |lines| && Names(lines[i]) && Armed(lines, i)
  }

  /** The first `n` lines, each due one followed by the include. */
  ghost function WithIncludes(lines: seq<string>, directive: string, n: nat): seq<string>
    requires n <= |lines|
  {
    if n == 0 then []
    else WithIncludes(lines, directive, n - 1) + [lines[n - 1]] + if Due(lines, n - 1) then [directive] else []
  }

  lemma ArmedStep(lines: seq<string>, i: nat)
    requires i < |lines|
    ensures Armed(lines, i + 1) <==> Opens(lines[i]) || (Armed(lines, i) && !Names(lines[i]))
  {
    hide Opens, Names;
    OpensOrNames(lines[i]);
    if Opens(lines[i]) {
      assert ArmedBy(lines, i, i + 1);
    } else if Armed(lines, i) && !Names(lines[i]) {
      var j: nat :| ArmedBy(lines, j, i);
      assert ArmedBy(lines, j, i + 1);
    }
    var next := i + 1;
    forall j: nat | ArmedBy(lines, j, next)
      ensures j == i || (ArmedBy(lines, j, i) && !Names(lines[i]) && !Opens(lines[i]))
    {
    }
  }

  method InsertIncludeAfterServerName(content: string, directive: string) returns (r: string)
    ensures var lines := Split(content, '\n');
            r == Join(WithIncludes(lines, TrimRight(directive, {'\n'}), |lines|), "\n")
  {
    hide Opens, Names, Due, Armed;
    var line := TrimRight(directive, {'\n'});
    var lines := Split(content, '\n');
    var out := [];
    var needInclude := false;
    NothingArmed(lines);
    for i := 0 to |lines|
      invariant out == WithIncludes(lines, line, i)
      invariant needInclude <==> Armed(lines, i)
    {
      ArmedStep(lines, i);
      DueStep(lines, i);
      if Opens(lines[i]) {
        needInclude := true;
      }
      out := out + [lines[i]];
      if needInclude && Names(lines[i]) {
        out := out + [line];
        needInclude := false;
      }
    }
    return Join(out, "\n");
  }

  lemma NothingArmed(lines: seq<string>)
    ensures !Armed(lines, 0)
  {
  }

  lemma DueStep(lines: seq<string>, i: nat)
    requires i < |lines|
    ensures Due(lines, i) <==> Armed(lines, i) && Names(lines[i])
    ensures !(Opens(lines[i]) && Names(lines[i]))
  {
    OpensOrNames(lines[i]);
  }

  // ---- one include per server block ------------------------------------

  /** The lines strictly after the opening `j` up to the next opening or the end of the file are `j + 1 .. e`. */
  predicate IsBlock(lines: seq<string>, j: nat, e: nat) {
    && j < e <= |lines| && Opens(lines[j])
    && (forall k: nat :: j < k < e ==> !Opens(lines[k]))
    && (e < |lines| ==> Opens(lines[e]))
  }

  predicate IsFirstName(lines: seq<string>, j: nat, i: nat) {
    j < i < |lines| && Names(lines[i]) && forall k: nat :: j < k < i ==> !Names(lines[k])
  }

  /** A block with a server_name line gets one directive, after the first such line; a block without one gets none;
      and nothing is inserted above the first opening. */
  lemma OneIncludePerBlock(lines: seq<string>, j: nat, e: nat, i: nat)
    requires IsBlock(lines, j, e)
    ensures j <= i < e ==> (Due(lines, i) <==> IsFirstName(lines, j, i))
    ensures (forall k: nat :: k <= i && k < |lines| ==> !Opens(lines[k])) ==> !Due(lines, i)
  {
    hide Opens, Names;
    if j <= i < e {
      OpensOrNames(lines[j]);
      if IsFirstName(lines, j, i) {
        assert ArmedBy(lines, j, i);
      }
      if Due(lines, i) {
        var k: nat :| ArmedBy(lines, k, i);
        assert k == j;
      }
    }
  }

  function Without(lines: seq<string>, line: string): seq<string> {
    if lines == [] then []
    else
      var last := lines[|lines| - 1];
      Without(lines[..|lines| - 1], line) + if last == line then [] else [last]
  }

  lemma WithoutSnoc(lines: seq<string>, x: string, line: string)
    ensures Without(lines + [x], line) == Without(lines, line) + if x == line then [] else [x]
  {
    assert (lines + [x])[..|lines|] == lines;
  }

  /** Deleting the inserted lines gives back the file. */
  lemma {:induction false} RemovingIncludesRestores(lines: seq<string>, directive: string, n: nat)
    requires n <= |lines| && directive !in lines
    ensures Without(WithIncludes(lines, directive, n), directive) == lines[..n]
  {
    hide Due, Without;
    if n == 0 {
      assert lines[..n] == [];
      WithoutNothing(directive);
    } else {
      RemovingIncludesRestores(lines, directive, n - 1);
      var before := WithIncludes(lines, directive, n - 1);
      WithoutSnoc(before, lines[n - 1], directive);
      WithoutSnoc(before + [lines[n - 1]], directive, directive);
      assert lines[..n] == lines[..n - 1] + [lines[n - 1]];
      assert before + [lines[n - 1]] + [] == before + [lines[n - 1]];
    }
  }

  lemma WithoutNothing(line: string)
    ensures Without([], line) == []
  {
  }

  /** The file stays as it is exactly when no line is due. */
  lemma {:induction false} NoneDueSame(lines: seq<string>, directive: string, n: nat)
    requires n <= |lines|
    ensures |WithIncludes(lines, directive, n)| >= n
    ensures (forall i: nat :: i < n ==> !Due(lines, i)) <==> WithIncludes(lines, directive, n) == lines[..n]
    ensures (exists i: nat :: i < n && Due(lines, i)) ==>
              directive in WithIncludes(lines, directive, n) && |WithIncludes(lines, directive, n)| > n
    ensures forall l <- WithIncludes(lines, directive, n) :: l == directive || l in lines
  {
    hide Due;
    if n == 0 {
      assert lines[..n] == [];
    } else {
      NoneDueSame(lines, directive, n - 1);
      assert lines[..n] == lines[..n - 1] + [lines[n - 1]];
    }
  }

  // ---- which vhosts are touched ----------------------------------------

  const MARK := "betazen-errors"

  const SKIPPED: seq<string> := [MARK, "error_page 503", "error_page 410", "sp-placeholder", "sp-suspended"]

  const STATIC_LINE := "    include /etc/nginx/snippets/" + MARK + ".conf;"
  const PROXY_LINE := "    include /etc/nginx/snippets/" + MARK + "-proxy.conf;"

  /** Already wired, suspended or a placeholder. */
  predicate Special(content: string) {
    exists m <- SKIPPED :: Contains(content, m)
  }

  function IncludeLine(content: string): string {
    if Contains(content, "proxy_pass") then PROXY_LINE else STATIC_LINE
  }

  /** The content with one include per server block. */
  ghost function Wired(content: string): string {
    var lines := Split(content, '\n');
    Join(WithIncludes(lines, IncludeLine(content), |lines|), "\n")
  }

  /** What the sweep makes of a vhost file. */
  ghost function Retrofit(content: string): string {
    if Special(content) then content else Wired(content)
  }

  lemma IncludeLineFacts(content: string)
    ensures var l := IncludeLine(content);
            '\n' !in l && TrimRight(l + "\n", {'\n'}) == l && Contains(l, MARK)
  {
    hide Contains, BodyLen;
    var l := IncludeLine(content);
    assert l[|l| - 1] == ';';
    TrimRightPad(l, "\n", {'\n'});
    var head, tail := "    include /etc/nginx/snippets/", if l == PROXY_LINE then "-proxy.conf;" else ".conf;";
    ContainsSelf(MARK);
    ContainsInMiddle(head, MARK, tail, MARK);
    NoNewlineIn(head, MARK, tail);
  }

  lemma ContainsSelf(s: string)
    ensures Contains(s, s)
  {
    ContainsAt(s, s, 0);
  }

  lemma NoNewlineIn(a: string, b: string, c: string)
    requires '\n' !in a && '\n' !in b && '\n' !in c
    ensures '\n' !in a + b + c
  {
  }

  lemma PartContains(s: string, p: string, sub: string)
    requires p in Split(s, '\n') && Contains(p, sub)
    ensures Contains(s, sub)
  {
    var a, b := SplitPart(s, '\n', p);
    ContainsInMiddle(a, p, b, sub);
  }

  lemma WiredLines(content: string)
    ensures var lines := Split(content, '\n');
            Split(Wired(content), '\n') == WithIncludes(lines, IncludeLine(content), |lines|)
  {
    var lines, l := Split(content, '\n'), IncludeLine(content);
    hide IncludeLine, WithIncludes;
    SplitFree(content, '\n');
    IncludeLineFacts(content);
    NoneDueSame(lines, l, |lines|);
    SplitJoin(WithIncludes(lines, l, |lines|), '\n');
  }

  /** Deleting the include lines of a retrofitted vhost gives back its original, line for line; and it is changed
      exactly when it is not special and has a server block with a server_name. */
  lemma RetrofitReverts(content: string)
    ensures Split(content, '\n') == if Special(content) then Split(Retrofit(content), '\n')
                                    else Without(Split(Retrofit(content), '\n'), IncludeLine(content))
    ensures Retrofit(content) != content <==> !Special(content) && exists i: nat :: Due(Split(content, '\n'), i)
  {
    var lines, l := Split(content, '\n'), IncludeLine(content);
    hide IncludeLine, WithIncludes, Without, Due;
    if !Special(content) {
      WiredLines(content);
      IncludeLineFacts(content);
      if l in lines {
        PartContains(content, l, MARK);
        MarkIsSpecial(content);
        assert false;
      }
      RemovingIncludesRestores(lines, l, |lines|);
      NoneDueSame(lines, l, |lines|);
      assert lines[..|lines|] == lines;
      JoinSplit(content, '\n');
      DueInside(lines);
    }
  }

  lemma MarkIsSpecial(content: string)
    requires Contains(content, MARK)
    ensures Special(content)
  {
    assert SKIPPED[0] in SKIPPED;
  }

  lemma DueInside(lines: seq<string>)
    ensures forall i: nat :: Due(lines, i) ==> i < |lines|
  {
  }

  /** A vhost the sweep has changed is skipped by every later sweep. */
  lemma RetrofitTwice(content: string)
    ensures Retrofit(Retrofit(content)) == Retrofit(content)
    ensures Retrofit(content) != content ==> Special(Retrofit(content))
  {
    var lines, l := Split(content, '\n'), IncludeLine(content);
    hide IncludeLine, WithIncludes, Special;
    RetrofitReverts(content);
    if Retrofit(content) != content {
      WiredLines(content);
      NoneDueSame(lines, l, |lines|);
      var i: nat :| Due(lines, i);
      IncludeLineFacts(content);
      PartContains(Retrofit(content), l, MARK);
      MarkIsSpecial(Retrofit(content));
    }
  }

  // ---- spelled out ------------------------------------------------------

  /** An indented line opens a server block when what follows the indent starts with `server {` or is `server{`, and
      names the server when it starts with `server_name `. */
  lemma LineKinds(pad: string, body: string, tail: string)
    requires AllIn(pad, SPACE) && AllIn(tail, SPACE) && Bare(body, SPACE)
    ensures Opens(pad + body + tail) <==> "server {" <= body || body == "server{"
    ensures Names(pad + body + tail) <==> "server_name " <= body
  {
    TrimPad(pad, body, tail, SPACE);
  }

  /** Which lines are added: for a vhost that mentions proxy_pass the gateway snippet, for any other the full one. */
  lemma AddedLines(content: string)
    requires Retrofit(content) != content
    ensures var lines, new_ := Split(content, '\n'), Split(Retrofit(content), '\n');
            var added := if Contains(content, "proxy_pass")
                         then "    include /etc/nginx/snippets/betazen-errors-proxy.conf;"
                         else "    include /etc/nginx/snippets/betazen-errors.conf;";
            && added in new_ && Without(new_, added) == lines
            && new_ == WithIncludes(lines, added, |lines|)
            && forall l <- new_ :: l == added || l in lines
  {
    hide WithIncludes, Without, Special, Contains;
    var lines := Split(content, '\n');
    SnippetLines();
    RetrofitReverts(content);
    WiredLines(content);
    NoneDueSame(lines, IncludeLine(content), |lines|);
    DueInside(lines);
  }

  lemma SnippetLines()
    ensures STATIC_LINE == "    include /etc/nginx/snippets/betazen-errors.conf;"
    ensures PROXY_LINE == "    include /etc/nginx/snippets/betazen-errors-proxy.conf;"
  {
    StaticLine();
    ProxyLine();
  }

  lemma StaticLine()
    ensures STATIC_LINE == "    include /etc/nginx/snippets/betazen-errors.conf;"
  {
    assert "betazen-errors.conf;" == MARK + ".conf;";
    assert STATIC_LINE == "    include /etc/nginx/snippets/" + "betazen-errors.conf;";
  }

  lemma ProxyLine()
    ensures PROXY_LINE == "    include /etc/nginx/snippets/betazen-errors-proxy.conf;"
  {
    assert "betazen-errors-proxy.conf;" == MARK + "-proxy.conf;";
    assert PROXY_LINE == "    include /etc/nginx/snippets/" + "betazen-errors-proxy.conf;";
  }

  /** A vhost is left alone exactly when it is wired, suspended or a placeholder, or has no server block with a name. */
  lemma LeftAloneIff(content: string)
    ensures Retrofit(content) == content
            <==> || Contains(content, "betazen-errors") || Contains(content, "error_page 503")
                 || Contains(content, "error_page 410") || Contains(content, "sp-placeholder")
                 || Contains(content, "sp-suspended")
                 || forall i: nat :: !Due(Split(content, '\n'), i)
  {
    hide Contains, Due, Retrofit;
    RetrofitReverts(content);
    SpecialIs(content);
  }

  lemma SpecialIs(content: string)
    ensures Special(content)
            <==> || Contains(content, "betazen-errors") || Contains(content, "error_page 503")
                 || Contains(content, "error_page 410") || Contains(content, "sp-placeholder")
                 || Contains(content, "sp-suspended")
  {
    hide Contains;
    assert SKIPPED[0] in SKIPPED && SKIPPED[1] in SKIPPED && SKIPPED[2] in SKIPPED && SKIPPED[3] in SKIPPED
        && SKIPPED[4] in SKIPPED;
  }

  // ---- the transaction -------------------------------------------------

  datatype Entry = Entry(name: string, isDir: bool)

  datatype Outcome = Done(updated: nat, skipped: nat) | Failed

  datatype Backup = Backup(path: string, orig: string)

  /** The sweep rewrites this entry: a readable file other than nginx's default whose retrofit differs from it. */
  ghost predicate Changes(files: map<string, string>, unreadable: set<string>, e: Entry) {
    && !e.isDir && e.name != "default" && e.name in files && e.name !in unreadable
    && Retrofit(files[e.name]) != files[e.name]
  }

  ghost function Changed(files: map<string, string>, unreadable: set<string>, entries: seq<Entry>): nat {
    if entries == [] then 0
    else
      var n := |entries| - 1;
      Changed(files, unreadable, entries[..n]) + if Changes(files, unreadable, entries[n]) then 1 else 0
  }

  function FileCount(entries: seq<Entry>): nat {
    if entries == [] then 0 else FileCount(entries[..|entries| - 1]) + if entries[|entries| - 1].isDir then 0 else 1
  }

  /** Every rewritten file holds its retrofitted form and every other file is as before. */
  ghost function Swept(files: map<string, string>, unreadable: set<string>, entries: seq<Entry>): map<string, string> {
    map n | n in files ::
      if Entry(n, false) in entries && Changes(files, unreadable, Entry(n, false)) then Retrofit(files[n]) else files[n]
  }

  predicate Distinct(entries: seq<Entry>) {
    forall i, j :: 0 <= i < j < |entries| ==> entries[i].name != entries[j].name
  }

  /** What is known in the middle of a sweep: a file is in its original state or has a backup. */
  ghost predicate Covered(files: map<string, string>, orig: map<string, string>, backups: seq<Backup>) {
    && files.Keys == orig.Keys
    && (forall b <- backups :: b.path in orig && b.orig == orig[b.path])
    && forall n <- files :: files[n] == orig[n] || exists b <- backups :: b.path == n
  }

  lemma CoveredNone(files: map<string, string>)
    ensures Covered(files, files, [])
  {
  }

  /** A file is backed up before it is overwritten. */
  lemma CoveredMore(files: map<string, string>, orig: map<string, string>, backups: seq<Backup>, path: string,
                    content: string)
    requires Covered(files, orig, backups) && path in files && files[path] == orig[path]
    ensures Covered(files[path := content], orig, backups + [Backup(path, orig[path])])
  {
    assert Backup(path, orig[path]) in backups + [Backup(path, orig[path])];
  }

  lemma SweptNone(files: map<string, string>, unreadable: set<string>)
    ensures Swept(files, unreadable, []) == files
  {
  }

  lemma ChangesFile(files: map<string, string>, unreadable: set<string>, e: Entry)
    ensures Changes(files, unreadable, e) ==> e == Entry(e.name, false) && e.name in files
  {
  }

  lemma SweptStep(orig: map<string, string>, unreadable: set<string>, done: seq<Entry>, e: Entry, backups: seq<Backup>)
    requires forall d <- done :: d.name != e.name
    ensures var files := Swept(orig, unreadable, done);
            && files.Keys == orig.Keys
            && (e.name in orig ==> files[e.name] == orig[e.name])
            && Swept(orig, unreadable, done + [e])
               == if Changes(orig, unreadable, e) then files[e.name := Retrofit(orig[e.name])] else files
  {
    hide Retrofit, Changes;
    ChangesFile(orig, unreadable, e);
    var files := Swept(orig, unreadable, done);
    var more := Swept(orig, unreadable, done + [e]);
    assert Entry(e.name, false) !in done;
    assert Changes(orig, unreadable, e) ==> e == Entry(e.name, false);
    forall n | n in orig
      ensures more[n] == if n == e.name && Changes(orig, unreadable, e) then Retrofit(orig[n]) else files[n]
    {
    }
  }

  /** What a successful sweep leaves of each file: nginx's default, unreadable files and anything that is not a listed
      file are as they were, every other one has its retrofitted form. */
  lemma SweptExactly(files: map<string, string>, unreadable: set<string>, entries: seq<Entry>, n: string)
    requires n in files
    ensures n in Swept(files, unreadable, entries)
    ensures Swept(files, unreadable, entries)[n]
         == if Entry(n, false) in entries && n != "default" && n !in unreadable then Retrofit(files[n]) else files[n]
  {
    hide Retrofit;
  }

  /** The files are counted one by one, directories not at all. */
  lemma {:induction false} FileCountSplit(a: seq<Entry>, b: seq<Entry>, name: string)
    ensures FileCount(a + b) == FileCount(a) + FileCount(b)
    ensures FileCount([Entry(name, false)]) == 1 && FileCount([Entry(name, true)]) == 0
  {
    if b == [] {
      assert a + b == a;
    } else {
      var n := |b| - 1;
      FileCountSplit(a, b[..n], name);
      assert (a + b)[..|a| + n] == a + b[..n];
    }
  }

  class Sites {
    var files: map<string, string>

    constructor (contents: map<string, string>)
      ensures files == contents
    {
      files := contents;
    }

    /** A write to a path in `torn` fails and leaves whatever `torn` says. */
    method WriteFile(path: string, content: string, torn: map<string, string>) returns (ok: bool)
      modifies this
      ensures ok <==> path !in torn
      ensures files == old(files)[path := if ok then content else torn[path]]
    {
      ok := path !in torn;
      files := files[path := if ok then content else torn[path]];
    }

    /** Every file whose rollback write succeeds is back in its original state. */
    method Rollback(backups: seq<Backup>, torn: map<string, string>, ghost orig: map<string, string>)
      requires Covered(files, orig, backups)
      modifies this
      ensures files.Keys == orig.Keys
      ensures forall n <- files :: n !in torn ==> files[n] == orig[n]
    {
      for i := 0 to |backups|
        invariant files.Keys == orig.Keys
        invariant forall n <- files :: n in torn || files[n] == orig[n] || exists b <- backups[i..] :: b.path == n
      {
        assert backups[i] in backups;
        assert forall b <- backups[i..] :: b == backups[i] || b in backups[i + 1..];
        var _ := WriteFile(backups[i].path, backups[i].orig, torn);
      }
    }

    /** `assets` and `listing` say whether installing the assets and listing the directory succeed, `gate` whether
        `nginx -t` accepts the batch. */
    method ApplyErrorPages(entries: seq<Entry>, assets: bool, listing: bool, unreadable: set<string>,
                           torn: map<string, string>, rollbackTorn: map<string, string>, gate: bool)
      returns (r: Outcome)
      requires Distinct(entries)
      modifies this
      ensures r.Done? <==> && assets && listing && gate
                           && forall e <- entries :: Changes(old(files), unreadable, e) ==> e.name !in torn
      ensures r.Done? ==> files == Swept(old(files), unreadable, entries)
      ensures r.Done? ==> r.updated == Changed(old(files), unreadable, entries)
      ensures r.Done? ==> r.updated + r.skipped == FileCount(entries)
      ensures r.Failed? ==> files.Keys == old(files).Keys
      ensures r.Failed? ==> forall n <- files :: n !in rollbackTorn ==> files[n] == old(files)[n]
    {
      hide Retrofit, Special, Wired, IncludeLine, Contains, Swept, Covered;
      if !assets || !listing {
        return Failed;
      }
      ghost var orig := files;
      var updated, skipped := 0, 0;
      var backups: seq<Backup> := [];
      SweptNone(orig, unreadable);
      CoveredNone(orig);
      for i := 0 to |entries|
        invariant files == Swept(orig, unreadable, entries[..i]) && Covered(files, orig, backups)
        invariant updated == Changed(orig, unreadable, entries[..i]) && updated + skipped == FileCount(entries[..i])
        invariant forall e <- entries[..i] :: Changes(orig, unreadable, e) ==> e.name !in torn
      {
        var e := entries[i];
        assert entries[..i + 1] == entries[..i] + [e] && entries[..i + 1][..i] == entries[..i];
        SweptStep(orig, unreadable, entries[..i], e, backups);
        if e.isDir {
          continue;
        }
        if e.name == "default" || e.name !in files || e.name in unreadable {
          skipped := skipped + 1;
          continue;
        }
        var content := files[e.name];
        var newContent := RetrofitVhost(content);
        if newContent == content {
          skipped := skipped + 1;
          continue;
        }
        CoveredMore(files, orig, backups, e.name, if e.name in torn then torn[e.name] else newContent);
        backups := backups + [Backup(e.name, content)];
        var ok := WriteFile(e.name, newContent, torn);
        if !ok {
          assert e in entries;
          Rollback(backups, rollbackTorn, orig);
          return Failed;
        }
        updated := updated + 1;
      }
      assert entries[..|entries|] == entries;
      if !gate {
        Rollback(backups, rollbackTorn, orig);
        return Failed;
      }
      return Done(updated, skipped);
    }
  }

  method RetrofitVhost(content: string) returns (r: string)
    ensures r == Retrofit(content)
  {
    for i := 0 to |SKIPPED|
      invariant forall j :: 0 <= j < i ==> !Contains(content, SKIPPED[j])
    {
      if Contains(content, SKIPPED[i]) {
        assert SKIPPED[i] in SKIPPED;
        return content;
      }
    }
    IncludeLineFacts(content);
    r := InsertIncludeAfterServerName(content, IncludeLine(content) + "\n");
  }

  /** A second sweep over the same directory rewrites nothing. */
  lemma {:induction false} SecondSweepUpdatesNothing(files: map<string, string>, unreadable: set<string>,
                                                     entries: seq<Entry>, n: nat)
    requires n <= |entries|
    ensures Changed(Swept(files, unreadable, entries), unreadable, entries[..n]) == 0
    ensures Swept(Swept(files, unreadable, entries), unreadable, entries) == Swept(files, unreadable, entries)
  {
    hide Retrofit;
    var after := Swept(files, unreadable, entries);
    forall e <- entries
      ensures !Changes(after, unreadable, e)
    {
      if e.name in files {
        RetrofitTwice(files[e.name]);
        assert !e.isDir ==> e == Entry(e.name, false);
      }
    }
    if n > 0 {
      SecondSweepUpdatesNothing(files, unreadable, entries, n - 1);
      assert entries[..n][..n - 1] == entries[..n - 1] && entries[..n][n - 1] in entries;
    }
  }
}
