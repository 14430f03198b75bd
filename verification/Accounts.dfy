/** Which ACME account a non-interactive `certbot certonly` is pinned to when several are registered. */
module Accounts {
  import opened Text
  import opened Options
  import opened Lists

  // ---- the order of sort.Strings ---------------------------------------

  predicate LexLeq(a: string, b: string) {
    a == "" || (b != "" && (a[0] < b[0] || (a[0] == b[0] && LexLeq(a[1..], b[1..]))))
  }

  lemma {:induction false} LexAntisymmetric(a: string, b: string)
    requires LexLeq(a, b) && LexLeq(b, a)
    ensures a == b
  {
    if a != "" {
      LexAntisymmetric(a[1..], b[1..]);
      assert a == [a[0]] + a[1..] && b == [b[0]] + b[1..];
    }
  }

  lemma {:induction false} LexTransitive(a: string, b: string, c: string)
    requires LexLeq(a, b) && LexLeq(b, c)
    ensures LexLeq(a, c)
  {
    if a != "" && a[0] == b[0] && b[0] == c[0] {
      LexTransitive(a[1..], b[1..], c[1..]);
    }
  }

  lemma {:induction false} LexTotal(a: string, b: string)
    ensures LexLeq(a, b) || LexLeq(b, a)
  {
    if a != "" && b != "" && a[0] == b[0] {
      LexTotal(a[1..], b[1..]);
    }
  }

  predicate Ascending(s: seq<string>) {
    forall i, j :: 0 <= i < j < |s| ==> LexLeq(s[i], s[j])
  }

  /** What sort.Strings leaves in its argument. */
  function Sorted(s: seq<string>): seq<string> {
    if s == [] then [] else Insert(s[0], Sorted(s[1..]))
  }

  function Insert(x: string, s: seq<string>): seq<string> {
    if s == [] || LexLeq(x, s[0]) then [x] + s else [s[0]] + Insert(x, s[1..])
  }

  lemma {:induction false} InsertSpec(x: string, s: seq<string>)
    requires Ascending(s)
    ensures multiset(Insert(x, s)) == multiset{x} + multiset(s)
    ensures Ascending(Insert(x, s))
  {
    if s == [] {
    } else if LexLeq(x, s[0]) {
      forall j | 0 <= j < |s| ensures LexLeq(x, s[j]) {
        if j > 0 {
          LexTransitive(x, s[0], s[j]);
        }
      }
    } else {
      var rest := Insert(x, s[1..]);
      InsertSpec(x, s[1..]);
      LexTotal(x, s[0]);
      assert s == [s[0]] + s[1..];
      forall y <- rest ensures LexLeq(s[0], y) {
        assert y in multiset(rest);
        assert y == x || y in s[1..];
      }
    }
  }

  lemma {:induction false} SortedSpec(s: seq<string>)
    ensures multiset(Sorted(s)) == multiset(s) && Ascending(Sorted(s))
    ensures |Sorted(s)| == |s|
  {
    if s != [] {
      SortedSpec(s[1..]);
      InsertSpec(s[0], Sorted(s[1..]));
      assert s == [s[0]] + s[1..];
    }
    assert |multiset(Sorted(s))| == |Sorted(s)| && |multiset(s)| == |s|;
  }

  // ---- counting the renewal configs ------------------------------------

  /** The account a renewal-config line names, if it names one. */
  function AccountOf(line: string): Option<string> {
    var l := TrimSpace(line);
    if "account" <= l && IndexChar(l, '=') >= 0 then
      var v := TrimSpace(l[IndexChar(l, '=') + 1..]);
      if v == "" then None else Some(v)
    else
      None
  }

  function AccountList(line: string): seq<string> {
    match AccountOf(line) case None => [] case Some(v) => [v]
  }

  /** The accounts a config file names, one per line naming one; an unreadable file names none. */
  function FileAccounts(file: Option<string>): seq<string> {
    match file case None => [] case Some(text) => FlatMap(AccountList, Split(text, '\n'))
  }

  /** How often every account is named. */
  function Uses(files: seq<Option<string>>): multiset<string> {
    multiset(FlatMap(FileAccounts, files))
  }

  function CountOf(counts: map<string, nat>, a: string): nat {
    if a in counts then counts[a] else 0
  }

  ghost predicate Counts(counts: map<string, nat>, named: seq<string>) {
    forall a :: CountOf(counts, a) == multiset(named)[a]
  }

  lemma NothingCounted()
    ensures Counts(map[], [])
  {
  }

  lemma CountOne(counts: map<string, nat>, named: seq<string>, v: string)
    requires Counts(counts, named)
    ensures Counts(counts[v := CountOf(counts, v) + 1], named + [v])
  {
  }

  lemma NoAccounts()
    ensures FileAccounts(None) == []
  {
  }

  method TallyFile(text: string, before: map<string, nat>, ghost named: seq<string>) returns (counts: map<string, nat>)
    requires Counts(before, named)
    ensures Counts(counts, named + FileAccounts(Some(text)))
  {
    hide AccountOf, Counts;
    counts := before;
    assert named + FlatMap(AccountList, []) == named;
    var lines := Split(text, '\n');
    for i := 0 to |lines|
      invariant Counts(counts, named + FlatMap(AccountList, lines[..i]))
    {
      assert lines[..i + 1] == lines[..i] + [lines[i]];
      FlatMapSnoc(AccountList, lines[..i], lines[i]);
      Concat3(named, FlatMap(AccountList, lines[..i]), AccountList(lines[i]));
      var account := AccountOf(lines[i]);
      assert AccountList(lines[i]) == if account.Some? then [account.value] else [];
      if account.Some? {
        CountOne(counts, named + FlatMap(AccountList, lines[..i]), account.value);
        counts := counts[account.value := CountOf(counts, account.value) + 1];
      } else {
        assert named + FlatMap(AccountList, lines[..i]) + [] == named + FlatMap(AccountList, lines[..i]);
      }
    }
    assert lines[..|lines|] == lines;
  }

  method TallyRenewals(files: seq<Option<string>>) returns (counts: map<string, nat>)
    ensures Counts(counts, FlatMap(FileAccounts, files))
  {
    hide FileAccounts, Counts;
    counts := map[];
    NothingCounted();
    for i := 0 to |files|
      invariant Counts(counts, FlatMap(FileAccounts, files[..i]))
    {
      assert files[..i + 1] == files[..i] + [files[i]];
      FlatMapSnoc(FileAccounts, files[..i], files[i]);
      assert files[i] == None ==> FileAccounts(files[i]) == [] by {
        NoAccounts();
      }
      if files[i].Some? {
        counts := TallyFile(files[i].value, counts, FlatMap(FileAccounts, files[..i]));
      } else {
        assert FlatMap(FileAccounts, files[..i]) + [] == FlatMap(FileAccounts, files[..i]);
      }
    }
    assert files[..|files|] == files;
  }

  // ---- the choice ------------------------------------------------------

  /** `b` is a registered account, none is used by more renewal configs, and it comes first among those used as
      often. */
  ghost predicate IsBest(accounts: seq<string>, uses: multiset<string>, b: string) {
    b in accounts && forall a <- accounts :: uses[a] <= uses[b] && (uses[a] == uses[b] ==> LexLeq(b, a))
  }

  lemma BestUnique(accounts: seq<string>, accounts': seq<string>, uses: multiset<string>, b: string, c: string)
    requires multiset(accounts) == multiset(accounts')
    requires IsBest(accounts, uses, b) && IsBest(accounts', uses, c)
    ensures b == c
  {
    SameMembers(accounts, accounts');
    LexAntisymmetric(b, c);
  }

  /** No argument unless at least two accounts are registered. */
  ghost predicate ArgsSpec(accounts: seq<string>, files: seq<Option<string>>, args: seq<string>) {
    if |accounts| <= 1 then args == []
    else |args| == 2 && args[0] == "--account" && IsBest(accounts, Uses(files), args[1])
  }

  /** `accounts` are the registered ids in directory-walk order, `files` the renewal configs in glob order. */
  method CertbotAccountArgs(accounts: seq<string>, files: seq<Option<string>>) returns (args: seq<string>)
    ensures ArgsSpec(accounts, files, args)
  {
    if |accounts| <= 1 {
      return [];
    }
    var accts := Sorted(accounts);
    SortedSpec(accounts);
    var counts := TallyRenewals(files);
    var best := MostUsed(accts, counts);
    BestAtIsBest(accounts, files, counts, accts, best);
    return ["--account", best];
  }

  method MostUsed(accts: seq<string>, counts: map<string, nat>) returns (best: string)
    requires accts != []
    ensures exists k :: BestAt(counts, accts, |accts|, best, k)
  {
    hide CountOf;
    var bestN: int := -1;
    best := accts[0];
    ghost var k := 0;
    for i := 0 to |accts|
      invariant i == 0 ==> bestN == -1
      invariant i > 0 ==> bestN == CountOf(counts, best) && BestAt(counts, accts, i, best, k)
    {
      if CountOf(counts, accts[i]) > bestN {
        best, bestN, k := accts[i], CountOf(counts, accts[i]), i;
      }
    }
  }

  /** `best` stands at `k`, its count is the largest of the first `n`, and every earlier one is smaller. */
  ghost predicate BestAt(counts: map<string, nat>, accts: seq<string>, n: nat, best: string, k: int) {
    && 0 <= k < n <= |accts| && accts[k] == best
    && (forall j :: 0 <= j < n ==> CountOf(counts, accts[j]) <= CountOf(counts, best))
    && forall j :: 0 <= j < k ==> CountOf(counts, accts[j]) < CountOf(counts, best)
  }

  lemma BestAtIsBest(accounts: seq<string>, files: seq<Option<string>>, counts: map<string, nat>,
                     accts: seq<string>, best: string)
    requires multiset(accts) == multiset(accounts) && Ascending(accts) && Counts(counts, FlatMap(FileAccounts, files))
    requires exists k :: BestAt(counts, accts, |accts|, best, k)
    ensures IsBest(accounts, Uses(files), best)
  {
    hide Sorted, LexLeq;
    var k :| BestAt(counts, accts, |accts|, best, k);
    var uses := Uses(files);
    LexReflexive(best);
    SameMembers(accts, accounts);
    assert accts[k] in accts;
    forall a | a in accounts
      ensures uses[a] <= uses[best] && (uses[a] == uses[best] ==> LexLeq(best, a))
    {
      assert a in accts;
      var j :| 0 <= j < |accts| && accts[j] == a;
      assert CountOf(counts, accts[j]) <= CountOf(counts, best);
    }
  }

  lemma {:induction false} LexReflexive(a: string)
    ensures LexLeq(a, a)
  {
    if a != "" {
      LexReflexive(a[1..]);
    }
  }

  /** The choice does not depend on the order in which the account directories or the renewal configs are listed,
      nor on the lines of the configs that name no account. */
  lemma ChoiceIndependentOfOrder(accounts: seq<string>, accounts': seq<string>, files: seq<Option<string>>,
                                 files': seq<Option<string>>, args: seq<string>, args': seq<string>)
    requires multiset(accounts) == multiset(accounts') && multiset(files) == multiset(files')
    requires ArgsSpec(accounts, files, args) && ArgsSpec(accounts', files', args')
    ensures args == args'
  {
    SameMembers(accounts, accounts');
    FlatMapBag(FileAccounts, files, files');
    if |accounts| > 1 {
      BestUnique(accounts, accounts', Uses(files), args[1], args'[1]);
      assert args == [args[0], args[1]] && args' == [args'[0], args'[1]];
    }
  }

  /** The line certbot itself writes is counted for its account, however it is indented. */
  lemma AccountLineCounted(pad: string, id: string, tail: string)
    requires AllIn(pad, SPACE) && AllIn(tail, SPACE) && id != "" && Bare(id, SPACE)
    ensures AccountOf(pad + "account = " + id + tail) == Some(id)
  {
    hide Trim, IndexChar;
    var name := "account ";
    var l := name + ['='] + (" " + id);
    assert "account = " == name + ['='] + " ";
    assert pad + "account = " + id + tail == pad + l + tail;
    assert l[|l| - 1] == id[|id| - 1] && l[0] == 'a' && "account" <= l;
    TrimPad(pad, l, tail, SPACE);
    IndexCharFirst(name, '=', " " + id);
    assert l[|name| + 1..] == " " + id + "";
    TrimPad(" ", id, "", SPACE);
  }

  // ---- injection -------------------------------------------------------

  predicate NeedsAccount(args: seq<string>) {
    "certonly" in args && "--account" !in args && "--account-id" !in args
  }

  ghost predicate Injected(args: seq<string>, accounts: seq<string>, files: seq<Option<string>>, out: seq<string>) {
    if NeedsAccount(args) then
      args <= out && ArgsSpec(accounts, files, out[|args|..])
    else
      out == args
  }

  method MaybeInjectAccount(args: seq<string>, accounts: seq<string>,
                            files: seq<Option<string>>) returns (out: seq<string>)
    ensures Injected(args, accounts, files, out)
  {
    hide ArgsSpec;
    var isCertonly, hasAccount := false, false;
    for i := 0 to |args|
      invariant isCertonly <==> "certonly" in args[..i]
      invariant hasAccount <==> "--account" in args[..i] || "--account-id" in args[..i]
    {
      assert args[..i + 1] == args[..i] + [args[i]];
      if args[i] == "certonly" {
        isCertonly := true;
      } else if args[i] == "--account" || args[i] == "--account-id" {
        hasAccount := true;
      }
    }
    assert args[..|args|] == args;
    if !isCertonly || hasAccount {
      return args;
    }
    var acc := CertbotAccountArgs(accounts, files);
    out := args + acc;
    assert out[|args|..] == acc;
  }

  /** The caller's arguments stay in front, the result is fully determined, and injecting again adds nothing; a later
      run differs only if a second account has been registered since. */
  lemma InjectionStable(args: seq<string>, accounts: seq<string>, files: seq<Option<string>>, out: seq<string>,
                        accounts': seq<string>, files': seq<Option<string>>, again: seq<string>)
    requires Injected(args, accounts, files, out) && Injected(out, accounts', files', again)
    ensures args <= out
    ensures again != out <==> NeedsAccount(args) && |accounts| <= 1 && |accounts'| > 1
  {
    hide IsBest;
    if NeedsAccount(args) {
      assert out == args + out[|args|..];
      assert NeedsAccount(out) ==> again == out + again[|out|..];
      if |accounts| > 1 {
        assert out[|args|] == "--account";
      }
    }
  }

  lemma InjectionDetermined(args: seq<string>, accounts: seq<string>, files: seq<Option<string>>, out: seq<string>,
                            accounts': seq<string>, files': seq<Option<string>>, out': seq<string>)
    requires multiset(accounts) == multiset(accounts') && multiset(files) == multiset(files')
    requires Injected(args, accounts, files, out) && Injected(args, accounts', files', out')
    ensures out == out'
  {
    hide ArgsSpec;
    if NeedsAccount(args) {
      ChoiceIndependentOfOrder(accounts, accounts', files, files', out[|args|..], out'[|args|..]);
      assert out == args + out[|args|..] && out' == args + out'[|args|..];
    }
  }

  // ---- spelled out ------------------------------------------------------

  predicate FirstDifference(a: string, b: string, i: nat) {
    i < |a| && i < |b| && a[..i] == b[..i] && a[i] != b[i]
  }

  /** The order is the dictionary's: a prefix comes first, otherwise the first different character decides. */
  lemma {:induction false} LexLeqIff(a: string, b: string)
    ensures LexLeq(a, b) <==> a <= b || exists i: nat :: FirstDifference(a, b, i) && a[i] < b[i]
  {
    if a != "" && b != "" && a[0] == b[0] {
      LexLeqIff(a[1..], b[1..]);
      assert a == [a[0]] + a[1..] && b == [b[0]] + b[1..];
      if i: nat :| FirstDifference(a[1..], b[1..], i) && a[1..][i] < b[1..][i] {
        assert a[..i + 1] == [a[0]] + a[1..][..i] && b[..i + 1] == [b[0]] + b[1..][..i];
        assert FirstDifference(a, b, i + 1);
      }
      if i: nat :| FirstDifference(a, b, i) && a[i] < b[i] {
        assert a[1..][..i - 1] == a[..i][1..] && b[1..][..i - 1] == b[..i][1..];
        assert FirstDifference(a[1..], b[1..], i - 1);
      }
    } else if a != "" && b != "" {
      assert a[..0] == b[..0];
      assert FirstDifference(a, b, 0);
    }
  }

  /** Lines that do not start with account, have no equals sign or nothing after it name no account. */
  lemma NoAccountNamed(line: string)
    requires !("account" <= TrimSpace(line)) || '=' !in TrimSpace(line)
    ensures AccountOf(line) == None
  {
    IndexCharSpec(TrimSpace(line), '=');
  }

  /** When an account is injected, and what is injected. */
  lemma InjectionSpelledOut(args: seq<string>, accounts: seq<string>, files: seq<Option<string>>, out: seq<string>)
    requires Injected(args, accounts, files, out)
    ensures "certonly" !in args || "--account" in args || "--account-id" in args || |accounts| <= 1 ==> out == args
    ensures "certonly" in args && "--account" !in args && "--account-id" !in args && |accounts| >= 2 ==>
              exists b :: out == args + ["--account", b] && IsBest(accounts, Uses(files), b)
  {
    hide IsBest;
    assert args <= out ==> out == args + out[|args|..];
    if NeedsAccount(args) && |accounts| >= 2 {
      assert out[|args|..] == ["--account", out[|args|..][1]];
    }
  }
}
