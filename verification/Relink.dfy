/** `bzpanel repair-ssl-links`: turns flattened Let's Encrypt live files back into links to the archive. */
module Relink {
  import opened Text
  import opened Options
  import opened Lists

  // ---- generation numbers ----------------------------------------------

  const MAX_INT: int := 0x7fff_ffff_ffff_ffff

  predicate IsDigit(c: char) {
    '0' <= c <= '9'
  }

  function Digits(s: string): Option<nat> {
    if s == "" then Some(0)
    else
      var n := |s| - 1;
      if !IsDigit(s[n]) then None
      else match Digits(s[..n]) case None => None case Some(v) => Some(10 * v + (s[n] - '0') as nat)
  }

  /** strconv.Atoi: an optional sign, at least one digit, and the value in range. */
  function Atoi(s: string): Option<int> {
    if s == "" then None
    else
      var signed := s[0] == '-' || s[0] == '+';
      var digits := if signed then s[1..] else s;
      if digits == "" then None
      else match Digits(digits)
        case None => None
        case Some(v) =>
          var sign: int := if s[0] == '-' then -1 else 1;
          var value := sign * v;
          if -MAX_INT - 1 <= value <= MAX_INT then Some(value) else None
  }

  function Itoa(n: nat): string {
    if n < 10 then [('0' as int + n) as char] else Itoa(n / 10) + [('0' as int + n % 10) as char]
  }

  lemma {:induction false} ItoaDigits(n: nat)
    ensures Itoa(n) != "" && IsDigit(Itoa(n)[0]) && Digits(Itoa(n)) == Some(n)
  {
    var last := [('0' as int + n % 10) as char];
    if n < 10 {
      assert last[..0] == "";
    } else {
      ItoaDigits(n / 10);
      assert Itoa(n)[..|Itoa(n)| - 1] == Itoa(n / 10);
    }
  }

  lemma AtoiItoa(n: nat)
    ensures Atoi(Itoa(n)) == if n <= MAX_INT then Some(n) else None
  {
    hide Digits, Itoa;
    ItoaDigits(n);
  }

  // ---- the directory tree ----------------------------------------------

  datatype Kind = Cert | Chain | Fullchain | Privkey

  const KINDS: seq<Kind> := [Cert, Chain, Fullchain, Privkey]

  /** live/<dir>/<kind>.pem, archive/<dir>/<name>, the backup of one run, and everything else a link may point to. */
  datatype Path =
    | Live(dir: string, kind: Kind)
    | Archive(dir: string, name: string)
    | Backup(run: nat, dir: string, kind: Kind)
    | Elsewhere(path: string)

  datatype Node = File(bytes: string) | Link(target: Path)

  type Tree = map<Path, Node>

  /** What reading a path gives when at most `hops` links may be followed. */
  function Resolve(fs: Tree, p: Path, hops: nat): Option<string>
    decreases hops
  {
    if p !in fs then None
    else match fs[p]
      case File(b) => Some(b)
      case Link(t) => if hops == 0 then None else Resolve(fs, t, hops - 1)
  }

  /** Links the kernel follows before giving up. */
  const HOPS: nat := 40

  function KindName(k: Kind): string {
    match k
    case Cert => "cert"
    case Chain => "chain"
    case Fullchain => "fullchain"
    case Privkey => "privkey"
  }

  function PemName(k: Kind, n: nat): string {
    KindName(k) + Itoa(n) + ".pem"
  }

  /** The generation an archive file name is read as, if it looks like a certificate's. */
  function GenerationOf(name: string): Option<int> {
    if "cert" <= name && HasSuffix(name, ".pem") then Atoi(TrimSuffix(name[4..], ".pem")) else None
  }

  lemma GenerationOfPem(n: nat)
    ensures GenerationOf(PemName(Cert, n)) == GenerationOf("cert" + Itoa(n) + ".pem")
    ensures GenerationOf(PemName(Cert, n)) == if n <= 9223372036854775807 then Some(n) else None
  {
    AtoiItoa(n);
    Affixes("cert", Itoa(n), ".pem");
  }

  /** A number may carry a sign. */
  lemma SignedNumbers(n: nat)
    requires n <= 9223372036854775807
    ensures Atoi("+" + Itoa(n)) == Some(n) && Atoi("-" + Itoa(n)) == Some(0 as int - n) && Atoi("") == None
  {
    hide Digits, Itoa;
    ItoaDigits(n);
    assert ("+" + Itoa(n))[1..] == Itoa(n) && ("-" + Itoa(n))[1..] == Itoa(n);
  }

  lemma Affixes(a: string, s: string, b: string)
    ensures a <= a + s + b && HasSuffix(a + s + b, b) && TrimSuffix((a + s + b)[|a|..], b) == s
  {
    assert (a + s + b)[|a|..] == s + b;
  }

  /** What may fail: reading a path, listing an archive directory, creating a backup directory, writing a backup,
      removing a live file, creating a link. */
  datatype Faults = Faults(unreadable: set<Path>, noList: set<string>, noMkdir: set<string>, noWrite: set<Path>,
                           noRemove: set<Path>, noLink: set<Path>)

  const NO_FAULTS := Faults({}, {}, {}, {}, {}, {})

  function Read(fs: Tree, p: Path, f: Faults): Option<string> {
    if p in f.unreadable then None else Resolve(fs, p, HOPS)
  }

  /** The archive file is a certificate of generation `n` and reads as `live`. */
  predicate Matches(fs: Tree, d: string, name: string, n: int, live: string, f: Faults) {
    && d !in f.noList && Archive(d, name) in fs && GenerationOf(name) == Some(n) && n >= 0
    && Read(fs, Archive(d, name), f) == Some(live)
  }

  function ArchiveNames(fs: Tree, d: string): set<string> {
    set p | p in fs && p.Archive? && p.dir == d :: p.name
  }

  /** `best` is the highest matching generation, or -1 if there is none. */
  ghost predicate IsBest(fs: Tree, d: string, live: string, f: Faults, best: int) {
    && best >= -1
    && (best >= 0 ==> exists name :: Matches(fs, d, name, best, live, f))
    && forall name, n :: Matches(fs, d, name, n, live, f) ==> n <= best
  }

  /** All four files of the generation are there. */
  predicate Complete(fs: Tree, d: string, n: nat) {
    forall k :: k in KINDS ==> Resolve(fs, Archive(d, PemName(k, n)), HOPS).Some?
  }

  datatype Verdict = Absent | Healthy | Skip | NoBackupDir | Relink(generation: nat)

  /** What the sweep decides about a live directory. */
  ghost predicate Decides(fs: Tree, d: string, f: Faults, v: Verdict) {
    if Live(d, Cert) !in fs then v == Absent
    else if fs[Live(d, Cert)].Link? then v == Healthy
    else if Live(d, Cert) in f.unreadable then v == Skip
    else exists best :: IsBest(fs, d, fs[Live(d, Cert)].bytes, f, best) && v == OnBest(fs, d, f, best)
  }

  function OnBest(fs: Tree, d: string, f: Faults, best: int): Verdict {
    if best < 0 || !Complete(fs, d, best) then Skip
    else if d in f.noMkdir then NoBackupDir
    else Relink(best)
  }

  lemma DecidesOnce(fs: Tree, d: string, f: Faults, v: Verdict, w: Verdict)
    requires Decides(fs, d, f, v) && Decides(fs, d, f, w)
    ensures v == w
  {
    hide Matches, OnBest;
  }

  // ---- replacing the four files of a directory -------------------------

  function Saved(fs: Tree, d: string, k: Kind, run: nat, f: Faults): Tree {
    var p, b := Live(d, k), Backup(run, d, k);
    if p in fs && fs[p].File? && p !in f.unreadable && b !in f.noWrite then fs[b := fs[p]] else fs
  }

  predicate CanLink(fs: Tree, p: Path, f: Faults) {
    !(p in fs && p in f.noRemove) && p !in f.noLink
  }

  /** One live file backed up, removed and linked to its archive file. */
  function Replaced(fs: Tree, d: string, k: Kind, n: nat, run: nat, f: Faults): Tree {
    var p := Live(d, k);
    var saved := Saved(fs, d, k, run, f);
    var removed := if p in f.noRemove then saved else saved - {p};
    if CanLink(fs, p, f) then removed[p := Link(Archive(d, PemName(k, n)))] else removed
  }

  function AllReplaced(fs: Tree, d: string, kinds: seq<Kind>, n: nat, run: nat, f: Faults): Tree {
    if kinds == [] then fs
    else
      var i := |kinds| - 1;
      Replaced(AllReplaced(fs, d, kinds[..i], n, run, f), d, kinds[i], n, run, f)
  }

  predicate SameAt(fs: Tree, gs: Tree, q: Path) {
    (q in fs <==> q in gs) && (q in fs ==> fs[q] == gs[q])
  }

  /** Replacing one file touches its live path and its backup path only, and what happens there depends only on what
      was at the live path. */
  lemma ReplacedAt(fs: Tree, d: string, k: Kind, n: nat, run: nat, f: Faults, q: Path)
    ensures q != Live(d, k) && q != Backup(run, d, k) ==>
              SameAt(fs, Replaced(fs, d, k, n, run, f), q)
  {
  }

  lemma {:induction false} AllReplacedFrame(fs: Tree, d: string, kinds: seq<Kind>, n: nat, run: nat, f: Faults, q: Path)
    requires forall k <- kinds :: q != Live(d, k) && q != Backup(run, d, k)
    ensures q in AllReplaced(fs, d, kinds, n, run, f) <==> q in fs
    ensures q in fs ==> AllReplaced(fs, d, kinds, n, run, f)[q] == fs[q]
  {
    hide Replaced;
    if kinds != [] {
      var i := |kinds| - 1;
      AllReplacedFrame(fs, d, kinds[..i], n, run, f, q);
      ReplacedAt(AllReplaced(fs, d, kinds[..i], n, run, f), d, kinds[i], n, run, f, q);
    }
  }

  lemma ReplacedIs(fs: Tree, d: string, k: Kind, n: nat, run: nat, f: Faults)
    ensures var p := Live(d, k);
            var saved := if p in fs then Saved(fs, d, k, run, f) else fs;
            var removed := if p in fs && p !in f.noRemove then saved - {p} else saved;
            Replaced(fs, d, k, n, run, f)
            == if p !in removed && p !in f.noLink then removed[p := Link(Archive(d, PemName(k, n)))] else removed
  {
    assert Live(d, k) !in fs ==> fs - {Live(d, k)} == fs;
  }

  class Store {
    var fs: Tree

    constructor (tree: Tree)
      ensures fs == tree
    {
      fs := tree;
    }

    /** Walks the archive directory in no particular order, reading only names that could improve on the best so far. */
    method BestGeneration(d: string, live: string, f: Faults) returns (best: int)
      ensures IsBest(fs, d, live, f, best)
    {
      hide GenerationOf, Resolve;
      best := -1;
      if d in f.noList {
        return;
      }
      var todo := ArchiveNames(fs, d);
      while todo != {}
        invariant todo <= ArchiveNames(fs, d)
        invariant best >= -1
        invariant best >= 0 ==> exists name :: Matches(fs, d, name, best, live, f)
        invariant forall name, n :: Matches(fs, d, name, n, live, f) && name !in todo ==> n <= best
        decreases |todo|
      {
        var name :| name in todo;
        todo := todo - {name};
        var n := GenerationOf(name);
        if n.Some? && n.value > best {
          if Read(fs, Archive(d, name), f) == Some(live) {
            assert Matches(fs, d, name, n.value, live, f);
            best := n.value;
          }
        }
      }
      forall name, n | Matches(fs, d, name, n, live, f)
        ensures n <= best
      {
        assert Archive(d, name) in fs;
      }
    }
  
    method RelinkFile(d: string, k: Kind, n: nat, run: nat, f: Faults) returns (ok: bool)
      modifies this
      ensures fs == Replaced(old(fs), d, k, n, run, f)
      ensures ok <==> CanLink(old(fs), Live(d, k), f)
    {
      ReplacedIs(fs, d, k, n, run, f);
      var p, b := Live(d, k), Backup(run, d, k);
      if p in fs {
        if fs[p].File? && p !in f.unreadable && b !in f.noWrite {
          fs := fs[b := fs[p]];
        }
        if p !in f.noRemove {
          fs := fs - {p};
        }
      }
      ok := p !in fs && p !in f.noLink;
      if ok {
        fs := fs[p := Link(Archive(d, PemName(k, n)))];
      }
    }

    /** Fails if some link could not be made. */
    method RelinkDir(d: string, n: nat, run: nat, f: Faults) returns (ok: bool)
      modifies this
      ensures fs == AllReplaced(old(fs), d, KINDS, n, run, f)
      ensures ok <==> forall k :: CanLink(old(fs), Live(d, k), f)
    {
      hide Replaced, CanLink;
      ghost var was := fs;
      ok := true;
      for i := 0 to |KINDS|
        invariant fs == AllReplaced(was, d, KINDS[..i], n, run, f)
        invariant ok <==> forall k <- KINDS[..i] :: CanLink(was, Live(d, k), f)
      {
        assert KINDS[..i + 1] == KINDS[..i] + [KINDS[i]] && KINDS[..i + 1][..i] == KINDS[..i];
        AllReplacedFrame(was, d, KINDS[..i], n, run, f, Live(d, KINDS[i]));
        CanLinkFrame(was, fs, Live(d, KINDS[i]), f);
        var made := RelinkFile(d, KINDS[i], n, run, f);
        if !made {
          ok := false;
        }
      }
      assert KINDS[..|KINDS|] == KINDS;
      EveryKind();
    }

    /** `dirs` are the directories under live/ as listed; `run` names this run's fresh backup directory. */
    method RepairSslLinks(dirs: seq<string>, run: nat, f: Faults) returns (relinked: nat, healthy: nat,
                          skipped: nat, aborted: bool)
      modifies this
      ensures Swept(old(fs), dirs, run, f, Tally(fs, relinked, healthy, skipped, aborted))
    {
      hide Swept, AllReplaced, Decides, IsBest, CanLink, Complete;
      ghost var was := fs;
      relinked, healthy, skipped, aborted := 0, 0, 0, false;
      SweptNone(was, run, f);
      for i := 0 to |dirs|
        invariant Swept(was, dirs[..i], run, f, Tally(fs, relinked, healthy, skipped, false))
      {
        var d := dirs[i];
        ghost var before := Tally(fs, relinked, healthy, skipped, false);
        var verdict := Examine(d, f);
        match verdict {
          case Absent =>
          case Healthy => healthy := healthy + 1;
          case Skip => skipped := skipped + 1;
          case NoBackupDir => aborted := true;
          case Relink(n) =>
            var made := RelinkDir(d, n, run, f);
            EveryKind();
            if made {
              relinked := relinked + 1;
            } else {
              skipped := skipped + 1;
            }
        }
        SweptStep(was, dirs, i, run, f, before, verdict);
        if aborted {
          SweptAborted(was, dirs, i + 1, run, f, Tally(fs, relinked, healthy, skipped, true));
          return;
        }
      }
      assert dirs[..|dirs|] == dirs;
    }

    method Examine(d: string, f: Faults) returns (v: Verdict)
      ensures Decides(fs, d, f, v)
    {
      hide IsBest, Complete;
      var p := Live(d, Cert);
      if p !in fs {
        return Absent;
      }
      if fs[p].Link? {
        return Healthy;
      }
      if p in f.unreadable {
        return Skip;
      }
      var best := BestGeneration(d, fs[p].bytes, f);
      if best < 0 {
        return Skip;
      }
      var complete := IsComplete(d, best);
      if !complete {
        return Skip;
      }
      return if d in f.noMkdir then NoBackupDir else Relink(best);
    }

    method IsComplete(d: string, n: nat) returns (complete: bool)
      ensures complete <==> Complete(fs, d, n)
    {
      hide PemName;
      complete := true;
      for i := 0 to |KINDS|
        invariant complete <==> forall k <- KINDS[..i] :: Resolve(fs, Archive(d, PemName(k, n)), HOPS).Some?
      {
        assert KINDS[..i + 1] == KINDS[..i] + [KINDS[i]];
        if Resolve(fs, Archive(d, PemName(KINDS[i], n)), HOPS) == None {
          complete := false;
        }
      }
      assert KINDS[..|KINDS|] == KINDS;
    }
  }

  lemma EveryKind()
    ensures forall k: Kind :: k in KINDS
  {
    forall k: Kind
      ensures k in KINDS
    {
      assert k == KINDS[0] || k == KINDS[1] || k == KINDS[2] || k == KINDS[3];
    }
  }

  lemma CanLinkFrame(fs: Tree, gs: Tree, p: Path, f: Faults)
    requires p in fs <==> p in gs
    ensures CanLink(fs, p, f) == CanLink(gs, p, f)
  {
  }

  // ---- the whole sweep -------------------------------------------------

  datatype Tally = Tally(fs: Tree, relinked: nat, healthy: nat, skipped: nat, aborted: bool)

  function After(t: Tally, d: string, run: nat, f: Faults, v: Verdict): Tally {
    match v
    case Absent => t
    case Healthy => t.(healthy := t.healthy + 1)
    case Skip => t.(skipped := t.skipped + 1)
    case NoBackupDir => t.(aborted := true)
    case Relink(n) =>
      var u := t.(fs := AllReplaced(t.fs, d, KINDS, n, run, f));
      if forall k <- KINDS :: CanLink(t.fs, Live(d, k), f) then u.(relinked := u.relinked + 1)
      else u.(skipped := u.skipped + 1)
  }

  /** `t` is what the sweep over `dirs` leaves: each directory is judged in the tree the ones before it left, and a
      backup directory that cannot be made ends the sweep. */
  ghost predicate Swept(fs: Tree, dirs: seq<string>, run: nat, f: Faults, t: Tally) {
    if dirs == [] then t == Tally(fs, 0, 0, 0, false)
    else
      var n := |dirs| - 1;
      exists s :: Swept(fs, dirs[..n], run, f, s) && Stepped(s, dirs[n], run, f, t)
  }

  ghost predicate Stepped(s: Tally, d: string, run: nat, f: Faults, t: Tally) {
    if s.aborted then t == s else exists v :: Decides(s.fs, d, f, v) && t == After(s, d, run, f, v)
  }

  lemma SweptNone(fs: Tree, run: nat, f: Faults)
    ensures Swept(fs, [], run, f, Tally(fs, 0, 0, 0, false))
  {
  }

  lemma SweptStep(fs: Tree, dirs: seq<string>, i: nat, run: nat, f: Faults, s: Tally, v: Verdict)
    requires i < |dirs| && Swept(fs, dirs[..i], run, f, s) && !s.aborted && Decides(s.fs, dirs[i], f, v)
    ensures Swept(fs, dirs[..i + 1], run, f, After(s, dirs[i], run, f, v))
  {
    hide Decides, After;
    var done := dirs[..i + 1];
    assert done[..|done| - 1] == dirs[..i] && done[|done| - 1] == dirs[i];
    assert Stepped(s, done[|done| - 1], run, f, After(s, dirs[i], run, f, v));
    assert Swept(fs, done[..|done| - 1], run, f, s);
  }

  lemma SweptAborted(fs: Tree, dirs: seq<string>, i: nat, run: nat, f: Faults, t: Tally)
    requires i <= |dirs| && t.aborted && Swept(fs, dirs[..i], run, f, t)
    ensures Swept(fs, dirs, run, f, t)
    decreases |dirs| - i
  {
    hide Decides, After;
    if i < |dirs| {
      assert dirs[..i + 1][..i] == dirs[..i];
      assert Stepped(t, dirs[i], run, f, t);
      SweptAborted(fs, dirs, i + 1, run, f, t);
    } else {
      assert dirs[..i] == dirs;
    }
  }

  // ---- what is never touched, whatever fails ---------------------------

  predicate Touchable(dirs: seq<string>, run: nat, q: Path) {
    (q.Live? && q.dir in dirs) || (q.Backup? && q.run == run && q.dir in dirs)
  }

  lemma AfterFrame(s: Tally, d: string, run: nat, f: Faults, v: Verdict, q: Path)
    requires !Touchable([d], run, q)
    ensures SameAt(s.fs, After(s, d, run, f, v).fs, q)
  {
    hide AllReplaced;
    if v.Relink? {
      assert d in [d];
      AllReplacedFrame(s.fs, d, KINDS, v.generation, run, f, q);
    }
  }

  /** Whatever fails, nothing outside the listed live directories and this run's backup of them changes: the archive
      is untouched. */
  lemma {:induction false} ArchiveUntouched(fs: Tree, dirs: seq<string>, run: nat, f: Faults, t: Tally, q: Path)
    requires Swept(fs, dirs, run, f, t) && !Touchable(dirs, run, q)
    ensures SameAt(fs, t.fs, q)
  {
    hide After, Decides;
    if dirs != [] {
      var n := |dirs| - 1;
      var s :| Swept(fs, dirs[..n], run, f, s) && Stepped(s, dirs[n], run, f, t);
      ArchiveUntouched(fs, dirs[..n], run, f, s, q);
      if !s.aborted {
        var v :| Decides(s.fs, dirs[n], f, v) && t == After(s, dirs[n], run, f, v);
        AfterFrame(s, dirs[n], run, f, v, q);
      }
    }
  }

  /** From `fs` to `gs` the live file `p` is kept, or is safe at `b` unless it could not be read or `b` not written. */
  predicate Guarded(fs: Tree, gs: Tree, p: Path, b: Path, f: Faults) {
    && (p in gs && gs[p].File? ==> p in fs && fs[p] == gs[p])
    && (p in fs && fs[p].File? ==> || (p in gs && gs[p] == fs[p]) || (b in gs && gs[b] == fs[p])
                                   || p in f.unreadable || b in f.noWrite)
    && (!(p in fs && fs[p].File?) ==> SameAt(fs, gs, b))
  }

  lemma GuardedTrans(fs: Tree, gs: Tree, hs: Tree, p: Path, b: Path, f: Faults)
    requires Guarded(fs, gs, p, b, f) && Guarded(gs, hs, p, b, f)
    ensures Guarded(fs, hs, p, b, f)
  {
  }

  lemma ReplacedGuards(fs: Tree, d: string, k: Kind, n: nat, run: nat, f: Faults, e: string, j: Kind)
    ensures Guarded(fs, Replaced(fs, d, k, n, run, f), Live(e, j), Backup(run, e, j), f)
  {
  }

  lemma {:induction false} AllReplacedGuards(fs: Tree, d: string, kinds: seq<Kind>, n: nat, run: nat, f: Faults,
                                             e: string, j: Kind)
    ensures Guarded(fs, AllReplaced(fs, d, kinds, n, run, f), Live(e, j), Backup(run, e, j), f)
  {
    hide Replaced;
    if kinds != [] {
      var i := |kinds| - 1;
      var before := AllReplaced(fs, d, kinds[..i], n, run, f);
      AllReplacedGuards(fs, d, kinds[..i], n, run, f, e, j);
      ReplacedGuards(before, d, kinds[i], n, run, f, e, j);
      GuardedTrans(fs, before, Replaced(before, d, kinds[i], n, run, f), Live(e, j), Backup(run, e, j), f);
    }
  }

  /** Whatever else fails, a regular live file that is replaced or lost is in the backup, unless it could not be read
      or its backup could not be written. */
  lemma {:induction false} EveryReplacedFileBackedUp(fs: Tree, dirs: seq<string>, run: nat, f: Faults, t: Tally,
                                                     d: string, k: Kind)
    requires Swept(fs, dirs, run, f, t)
    ensures Guarded(fs, t.fs, Live(d, k), Backup(run, d, k), f)
  {
    hide Decides, AllReplaced, Guarded;
    if dirs != [] {
      var n := |dirs| - 1;
      var s :| Swept(fs, dirs[..n], run, f, s) && Stepped(s, dirs[n], run, f, t);
      EveryReplacedFileBackedUp(fs, dirs[..n], run, f, s, d, k);
      if !s.aborted {
        var v :| Decides(s.fs, dirs[n], f, v) && t == After(s, dirs[n], run, f, v);
        if v.Relink? {
          AllReplacedGuards(s.fs, dirs[n], KINDS, v.generation, run, f, d, k);
          GuardedTrans(fs, s.fs, t.fs, Live(d, k), Backup(run, d, k), f);
        }
      }
    } else {
      GuardedSame(fs, Live(d, k), Backup(run, d, k), f);
    }
  }

  lemma GuardedSame(fs: Tree, p: Path, b: Path, f: Faults)
    ensures Guarded(fs, fs, p, b, f)
  {
  }

  // ---- counts ----------------------------------------------------------

  predicate Distinct(dirs: seq<string>) {
    forall i, j :: 0 <= i < j < |dirs| ==> dirs[i] != dirs[j]
  }

  function HavingCert(fs: Tree, dirs: seq<string>): nat {
    if dirs == [] then 0
    else HavingCert(fs, dirs[..|dirs| - 1]) + if Live(dirs[|dirs| - 1], Cert) in fs then 1 else 0
  }

  function HavingLink(fs: Tree, dirs: seq<string>): nat {
    if dirs == [] then 0
    else
      var p := Live(dirs[|dirs| - 1], Cert);
      HavingLink(fs, dirs[..|dirs| - 1]) + if p in fs && fs[p].Link? then 1 else 0
  }

  lemma AfterCounts(s: Tally, d: string, run: nat, f: Faults, v: Verdict)
    requires Decides(s.fs, d, f, v)
    ensures var t := After(s, d, run, f, v);
            && (!t.aborted && !s.aborted ==>
                  t.relinked + t.healthy + t.skipped
                  == s.relinked + s.healthy + s.skipped + if Live(d, Cert) in s.fs then 1 else 0)
            && t.healthy == s.healthy + if Live(d, Cert) in s.fs && s.fs[Live(d, Cert)].Link? then 1 else 0
  {
    hide AllReplaced, IsBest;
  }

  /** A sweep that is not cut short counts every directory having a cert.pem once, and the linked ones as healthy. */
  lemma {:induction false} EveryDirCounted(fs: Tree, dirs: seq<string>, run: nat, f: Faults, t: Tally)
    requires Swept(fs, dirs, run, f, t) && Distinct(dirs) && !t.aborted
    ensures t.healthy + t.relinked + t.skipped == HavingCert(fs, dirs)
    ensures t.healthy == HavingLink(fs, dirs)
  {
    hide After, Decides;
    if dirs != [] {
      var n := |dirs| - 1;
      var s :| Swept(fs, dirs[..n], run, f, s) && Stepped(s, dirs[n], run, f, t);
      EveryDirCounted(fs, dirs[..n], run, f, s);
      var v :| Decides(s.fs, dirs[n], f, v) && t == After(s, dirs[n], run, f, v);
      AfterCounts(s, dirs[n], run, f, v);
      ArchiveUntouched(fs, dirs[..n], run, f, s, Live(dirs[n], Cert));
    }
  }

  // ---- what a directory's repair depends on ----------------------------

  /** The chain of links from `p` meets no listed live directory and not this run's backup. */
  predicate Sheltered(fs: Tree, p: Path, dirs: seq<string>, run: nat, hops: nat)
    decreases hops
  {
    && !Touchable(dirs, run, p)
    && (p in fs && fs[p].Link? && hops > 0 ==> Sheltered(fs, fs[p].target, dirs, run, hops - 1))
  }

  ghost predicate ArchiveSheltered(fs: Tree, d: string, dirs: seq<string>, run: nat) {
    forall name :: Sheltered(fs, Archive(d, name), dirs, run, HOPS)
  }

  ghost predicate SameOutside(fs: Tree, gs: Tree, dirs: seq<string>, run: nat) {
    forall p: Path :: !Touchable(dirs, run, p) ==> SameAt(fs, gs, p)
  }

  lemma SweptSameOutside(fs: Tree, dirs: seq<string>, run: nat, f: Faults, t: Tally)
    requires Swept(fs, dirs, run, f, t)
    ensures SameOutside(fs, t.fs, dirs, run)
  {
    forall p: Path | !Touchable(dirs, run, p)
      ensures SameAt(fs, t.fs, p)
    {
      ArchiveUntouched(fs, dirs, run, f, t, p);
    }
  }

  lemma {:induction false} ShelteredReads(fs: Tree, gs: Tree, p: Path, dirs: seq<string>, run: nat, hops: nat)
    requires SameOutside(fs, gs, dirs, run) && Sheltered(fs, p, dirs, run, hops)
    ensures Resolve(fs, p, hops) == Resolve(gs, p, hops)
    decreases hops
  {
    hide Touchable;
    assert SameAt(fs, gs, p);
    if p in fs && fs[p].Link? && hops > 0 {
      ShelteredReads(fs, gs, fs[p].target, dirs, run, hops - 1);
    }
  }

  /** Fewer listed directories and fewer links shelter no less. */
  lemma {:induction false} ShelteredLess(fs: Tree, p: Path, dirs: seq<string>, run: nat, hops: nat,
                                         fewer: seq<string>, less: nat)
    requires Sheltered(fs, p, dirs, run, hops) && less <= hops && forall d <- fewer :: d in dirs
    ensures Sheltered(fs, p, fewer, run, less)
    decreases hops
  {
    if p in fs && fs[p].Link? && less > 0 {
      ShelteredLess(fs, fs[p].target, dirs, run, hops - 1, fewer, less - 1);
    }
  }

  /** What reads within a number of links reads the same within more. */
  lemma {:induction false} ResolveMore(fs: Tree, p: Path, hops: nat, more: nat)
    requires hops <= more && Resolve(fs, p, hops).Some?
    ensures Resolve(fs, p, more) == Resolve(fs, p, hops)
    decreases hops
  {
    if fs[p].Link? {
      ResolveMore(fs, fs[p].target, hops - 1, more - 1);
    }
  }

  /** A directory is judged by its own cert.pem and what its archive files read as. */
  lemma DecidesLocal(fs: Tree, gs: Tree, d: string, dirs: seq<string>, run: nat, f: Faults, v: Verdict)
    requires SameOutside(fs, gs, dirs, run) && ArchiveSheltered(fs, d, dirs, run) && SameAt(fs, gs, Live(d, Cert))
    ensures Decides(fs, d, f, v) <==> Decides(gs, d, f, v)
  {
    hide GenerationOf, Resolve, PemName, Sheltered;
    forall name
      ensures Resolve(fs, Archive(d, name), HOPS) == Resolve(gs, Archive(d, name), HOPS)
      ensures Archive(d, name) in fs <==> Archive(d, name) in gs
    {
      assert Sheltered(fs, Archive(d, name), dirs, run, HOPS);
      ShelteredReads(fs, gs, Archive(d, name), dirs, run, HOPS);
      assert SameAt(fs, gs, Archive(d, name));
    }
    assert forall live, name, n :: Matches(fs, d, name, n, live, f) <==> Matches(gs, d, name, n, live, f);
    assert forall live, best :: IsBest(fs, d, live, f, best) <==> IsBest(gs, d, live, f, best);
    assert forall best: nat :: Complete(fs, d, best) <==> Complete(gs, d, best);
    assert forall best :: OnBest(fs, d, f, best) == OnBest(gs, d, f, best);
  }

  // ---- a sweep in which nothing fails ----------------------------------

  /** A regular file at `p` is in the other tree at `b`. */
  predicate SavedAt(fs: Tree, gs: Tree, p: Path, b: Path) {
    p in fs && fs[p].File? ==> b in gs && gs[b] == fs[p]
  }

  /** All four live files of `d` are links to generation `n`, and the regular files they were are in the backup. */
  predicate Linked(fs: Tree, gs: Tree, d: string, n: nat, run: nat) {
    forall k: Kind ::
      && Live(d, k) in gs && gs[Live(d, k)] == Link(Archive(d, PemName(k, n)))
      && SavedAt(fs, gs, Live(d, k), Backup(run, d, k))
  }

  lemma {:induction false} ReplacedLinks(fs: Tree, d: string, kinds: seq<Kind>, n: nat, run: nat, k: Kind)
    requires k in kinds && forall i, j :: 0 <= i < j < |kinds| ==> kinds[i] != kinds[j]
    ensures var gs := AllReplaced(fs, d, kinds, n, run, NO_FAULTS);
            && Live(d, k) in gs && gs[Live(d, k)] == Link(Archive(d, PemName(k, n)))
            && SavedAt(fs, gs, Live(d, k), Backup(run, d, k))
  {
    hide Replaced;
    var i := |kinds| - 1;
    var before := AllReplaced(fs, d, kinds[..i], n, run, NO_FAULTS);
    if k == kinds[i] {
      AllReplacedFrame(fs, d, kinds[..i], n, run, NO_FAULTS, Live(d, k));
      LinksOne(before, d, k, n, run);
    } else {
      ReplacedLinks(fs, d, kinds[..i], n, run, k);
      ReplacedAt(before, d, kinds[i], n, run, NO_FAULTS, Live(d, k));
      ReplacedAt(before, d, kinds[i], n, run, NO_FAULTS, Backup(run, d, k));
    }
  }

  lemma LinksOne(fs: Tree, d: string, k: Kind, n: nat, run: nat)
    ensures var gs := Replaced(fs, d, k, n, run, NO_FAULTS);
            && Live(d, k) in gs && gs[Live(d, k)] == Link(Archive(d, PemName(k, n)))
            && SavedAt(fs, gs, Live(d, k), Backup(run, d, k))
  {
    hide PemName;
  }

  lemma AfterLinks(s: Tally, d: string, run: nat, n: nat)
    ensures Linked(s.fs, After(s, d, run, NO_FAULTS, Relink(n)).fs, d, n, run)
    ensures After(s, d, run, NO_FAULTS, Relink(n)).relinked == s.relinked + 1
  {
    hide AllReplaced;
    forall k: Kind
      ensures var gs := AllReplaced(s.fs, d, KINDS, n, run, NO_FAULTS);
              && Live(d, k) in gs && gs[Live(d, k)] == Link(Archive(d, PemName(k, n)))
              && SavedAt(s.fs, gs, Live(d, k), Backup(run, d, k))
    {
      EveryKind();
      ReplacedLinks(s.fs, d, KINDS, n, run, k);
    }
  }

  /** When nothing fails the sweep runs to its end. A directory whose archive files do not lead back into the listed
      live directories is judged as it was at the start, whatever order the directories come in: judged repairable,
      it ends up linked to the generation chosen for it; otherwise it keeps its files. */
  lemma {:induction false} EveryDirSettled(fs: Tree, dirs: seq<string>, run: nat, t: Tally, d: string)
    requires Swept(fs, dirs, run, NO_FAULTS, t) && ArchiveSheltered(fs, d, dirs, run) && Distinct(dirs) && d in dirs
    ensures !t.aborted
    ensures exists v :: Decides(fs, d, NO_FAULTS, v) && Settled(fs, t.fs, d, run, v)
  {
    hide Decides, After, Linked, Sheltered, SameOutside;
    var n := |dirs| - 1;
    var s :| Swept(fs, dirs[..n], run, NO_FAULTS, s) && Stepped(s, dirs[n], run, NO_FAULTS, t);
    NeverAborts(fs, dirs[..n], run, s);
    NeverAborts(fs, dirs, run, t);
    var w :| Decides(s.fs, dirs[n], NO_FAULTS, w) && t == After(s, dirs[n], run, NO_FAULTS, w);
    forall name
      ensures Sheltered(fs, Archive(d, name), dirs[..n], run, HOPS)
    {
      ShelteredLess(fs, Archive(d, name), dirs, run, HOPS, dirs[..n], HOPS);
    }
    if d in dirs[..n] {
      EveryDirSettled(fs, dirs[..n], run, s, d);
      var v :| Decides(fs, d, NO_FAULTS, v) && Settled(fs, s.fs, d, run, v);
      OthersKept(s, dirs[n], run, w, d);
      SettledSame(fs, s.fs, t.fs, d, run, v);
    } else {
      SweptSameOutside(fs, dirs[..n], run, NO_FAULTS, s);
      NotYetTouched(fs, s.fs, dirs[..n], run, d);
      DecidesLocal(fs, s.fs, d, dirs[..n], run, NO_FAULTS, w);
      SettledStep(fs, s, d, run, w);
    }
  }

  lemma NotYetTouched(fs: Tree, gs: Tree, dirs: seq<string>, run: nat, d: string)
    requires SameOutside(fs, gs, dirs, run) && d !in dirs
    ensures forall k: Kind :: SameAt(fs, gs, Live(d, k))
  {
  }

  predicate Settled(fs: Tree, gs: Tree, d: string, run: nat, v: Verdict) {
    if v.Relink? then Linked(fs, gs, d, v.generation, run)
    else forall k: Kind :: SameAt(fs, gs, Live(d, k))
  }

  lemma SettledSame(fs: Tree, gs: Tree, hs: Tree, d: string, run: nat, v: Verdict)
    requires Settled(fs, gs, d, run, v)
    requires forall k: Kind :: SameAt(gs, hs, Live(d, k)) && SameAt(gs, hs, Backup(run, d, k))
    ensures Settled(fs, hs, d, run, v)
  {
    hide PemName;
  }

  lemma SettledStep(fs: Tree, s: Tally, d: string, run: nat, v: Verdict)
    requires forall k: Kind :: SameAt(fs, s.fs, Live(d, k))
    ensures Settled(fs, After(s, d, run, NO_FAULTS, v).fs, d, run, v)
  {
    hide AllReplaced, PemName;
    if v.Relink? {
      AfterLinks(s, d, run, v.generation);
    }
  }

  lemma OthersKept(s: Tally, e: string, run: nat, v: Verdict, d: string)
    requires d != e
    ensures forall k: Kind :: SameAt(s.fs, After(s, e, run, NO_FAULTS, v).fs, Live(d, k))
                              && SameAt(s.fs, After(s, e, run, NO_FAULTS, v).fs, Backup(run, d, k))
  {
    hide After;
    forall k: Kind
      ensures SameAt(s.fs, After(s, e, run, NO_FAULTS, v).fs, Live(d, k))
      ensures SameAt(s.fs, After(s, e, run, NO_FAULTS, v).fs, Backup(run, d, k))
    {
      AfterFrame(s, e, run, NO_FAULTS, v, Live(d, k));
      AfterFrame(s, e, run, NO_FAULTS, v, Backup(run, d, k));
    }
  }

  lemma {:induction false} NeverAborts(fs: Tree, dirs: seq<string>, run: nat, t: Tally)
    requires Swept(fs, dirs, run, NO_FAULTS, t)
    ensures !t.aborted
  {
    hide IsBest;
    if dirs != [] {
      var n := |dirs| - 1;
      var s :| Swept(fs, dirs[..n], run, NO_FAULTS, s) && Stepped(s, dirs[n], run, NO_FAULTS, t);
      NeverAborts(fs, dirs[..n], run, s);
    }
  }

  // ---- what the repair means for readers -------------------------------

  /** Certificate generations are numbered the way certbot prints them. */
  predicate Canonical(fs: Tree) {
    forall p <- fs :: p.Archive? && GenerationOf(p.name).Some? && GenerationOf(p.name).value >= 0
                      ==> p.name == PemName(Cert, GenerationOf(p.name).value)
  }

  /** A path other than a live chain, fullchain or privkey file and this run's backup. */
  predicate Stable(p: Path, run: nat) {
    !(p.Live? && p.kind != Cert) && !(p.Backup? && p.run == run)
  }

  /** Links followed when a certificate is read stay among certificates, the archive and other stable places. */
  predicate StableLinks(fs: Tree, run: nat) {
    forall p <- fs :: Stable(p, run) && fs[p].Link? ==> Stable(fs[p].target, run)
  }

  /** The chosen generation is the highest whose certificate reads as the live one; its four files exist. */
  lemma ChosenGeneration(fs: Tree, d: string, n: nat, name: string, m: int)
    requires Decides(fs, d, NO_FAULTS, Relink(n))
    ensures Live(d, Cert) in fs && fs[Live(d, Cert)].File? && Complete(fs, d, n)
    ensures exists nm :: Matches(fs, d, nm, n, fs[Live(d, Cert)].bytes, NO_FAULTS)
    ensures Matches(fs, d, name, m, fs[Live(d, Cert)].bytes, NO_FAULTS) ==> m <= n
  {
    hide Complete, Matches;
    var best :| IsBest(fs, d, fs[Live(d, Cert)].bytes, NO_FAULTS, best) && Relink(n) == OnBest(fs, d, NO_FAULTS, best);
  }

  /** The repaired files read as the archive files of the chosen generation did, through one more link. */
  lemma RepairedReads(fs: Tree, dirs: seq<string>, run: nat, t: Tally, d: string, n: nat, k: Kind, hops: nat)
    requires Swept(fs, dirs, run, NO_FAULTS, t) && ArchiveSheltered(fs, d, dirs, run) && Distinct(dirs) && d in dirs
    requires Decides(fs, d, NO_FAULTS, Relink(n)) && hops <= HOPS
    ensures Resolve(t.fs, Live(d, k), hops + 1) == Resolve(fs, Archive(d, PemName(k, n)), hops)
  {
    hide PemName, Decides, Swept, Sheltered, SameOutside;
    EveryDirSettled(fs, dirs, run, t, d);
    var v :| Decides(fs, d, NO_FAULTS, v) && Settled(fs, t.fs, d, run, v);
    DecidesOnce(fs, d, NO_FAULTS, v, Relink(n));
    assert t.fs[Live(d, k)] == Link(Archive(d, PemName(k, n)));
    ShelteredFile(fs, dirs, run, NO_FAULTS, t, Archive(d, PemName(k, n)), HOPS, hops);
  }

  lemma ShelteredFile(fs: Tree, dirs: seq<string>, run: nat, f: Faults, t: Tally, p: Path, hops: nat, less: nat)
    requires Swept(fs, dirs, run, f, t) && Sheltered(fs, p, dirs, run, hops) && less <= hops
    ensures Resolve(t.fs, p, less) == Resolve(fs, p, less)
  {
    SweptSameOutside(fs, dirs, run, f, t);
    ShelteredLess(fs, p, dirs, run, hops, dirs, less);
    ShelteredReads(fs, t.fs, p, dirs, run, less);
  }

  // ---- all four files ---------------------------------------------------

  /** The four archive files of generation `n`, by name, can be read. */
  predicate AllFour(fs: Tree, d: string, n: nat) {
    && Resolve(fs, Archive(d, "cert" + Itoa(n) + ".pem"), HOPS).Some?
    && Resolve(fs, Archive(d, "chain" + Itoa(n) + ".pem"), HOPS).Some?
    && Resolve(fs, Archive(d, "fullchain" + Itoa(n) + ".pem"), HOPS).Some?
    && Resolve(fs, Archive(d, "privkey" + Itoa(n) + ".pem"), HOPS).Some?
  }

  lemma CompleteIff(fs: Tree, d: string, n: nat)
    ensures Complete(fs, d, n) <==> AllFour(fs, d, n)
  {
    hide Resolve, Itoa;
    EveryKind();
    assert PemName(Cert, n) == "cert" + Itoa(n) + ".pem" && PemName(Chain, n) == "chain" + Itoa(n) + ".pem";
    assert PemName(Fullchain, n) == "fullchain" + Itoa(n) + ".pem";
    assert PemName(Privkey, n) == "privkey" + Itoa(n) + ".pem";
  }

  /** The live certificate is a regular file and `n` is the highest generation whose archived certificate reads as
      it. */
  ghost predicate Highest(fs: Tree, d: string, f: Faults, n: nat) {
    && Live(d, Cert) in fs && fs[Live(d, Cert)].File? && Live(d, Cert) !in f.unreadable && d !in f.noList
    && (exists name :: ReadsAs(fs, d, name, n, fs[Live(d, Cert)].bytes, f))
    && forall name, m: nat :: ReadsAs(fs, d, name, m, fs[Live(d, Cert)].bytes, f) ==> m <= n
  }

  predicate ReadsAs(fs: Tree, d: string, name: string, n: nat, live: string, f: Faults) {
    && GenerationOf(name) == Some(n) && Archive(d, name) !in f.unreadable
    && Resolve(fs, Archive(d, name), HOPS) == Some(live)
  }

  /** A directory is judged repairable if and only if its highest matching generation has all four files and its backup
      directory can be made; lacking one of the four it is skipped. */
  lemma RepairableIff(fs: Tree, d: string, f: Faults, n: nat)
    ensures Decides(fs, d, f, Relink(n)) <==> Highest(fs, d, f, n) && AllFour(fs, d, n) && d !in f.noMkdir
    ensures Highest(fs, d, f, n) && !AllFour(fs, d, n) ==> Decides(fs, d, f, Skip)
  {
    hide GenerationOf, AllFour, Complete;
    CompleteIff(fs, d, n);
    if Live(d, Cert) in fs && fs[Live(d, Cert)].File? {
      var live := fs[Live(d, Cert)].bytes;
      assert forall name, m: nat ::
          Matches(fs, d, name, m, live, f) <==> d !in f.noList && ReadsAs(fs, d, name, m, live, f);
      assert forall name, m :: Matches(fs, d, name, m, live, f) ==> m >= 0;
      assert Highest(fs, d, f, n) ==> IsBest(fs, d, live, f, n);
    }
  }

  /** When nothing fails, a repaired directory's four live files are links to the four archive files by name, and
      all four can be read, through one more link. */
  lemma RepairedReadable(fs: Tree, dirs: seq<string>, run: nat, t: Tally, d: string, n: nat)
    requires Swept(fs, dirs, run, NO_FAULTS, t) && ArchiveSheltered(fs, d, dirs, run) && Distinct(dirs) && d in dirs
    requires Decides(fs, d, NO_FAULTS, Relink(n))
    ensures AllFour(fs, d, n)
    ensures forall k: Kind :: Live(d, k) in t.fs && Resolve(t.fs, Live(d, k), HOPS + 1).Some?
    ensures t.fs[Live(d, Cert)] == Link(Archive(d, "cert" + Itoa(n) + ".pem"))
    ensures t.fs[Live(d, Chain)] == Link(Archive(d, "chain" + Itoa(n) + ".pem"))
    ensures t.fs[Live(d, Fullchain)] == Link(Archive(d, "fullchain" + Itoa(n) + ".pem"))
    ensures t.fs[Live(d, Privkey)] == Link(Archive(d, "privkey" + Itoa(n) + ".pem"))
  {
    hide Decides, Swept, Sheltered, Resolve, Itoa;
    RepairableIff(fs, d, NO_FAULTS, n);
    CompleteIff(fs, d, n);
    EveryKind();
    EveryDirSettled(fs, dirs, run, t, d);
    var v :| Decides(fs, d, NO_FAULTS, v) && Settled(fs, t.fs, d, run, v);
    DecidesOnce(fs, d, NO_FAULTS, v, Relink(n));
    forall k: Kind
      ensures Resolve(t.fs, Live(d, k), HOPS + 1).Some?
    {
      RepairedReads(fs, dirs, run, t, d, n, k, HOPS);
    }
  }

  // ---- when a certificate is kept, whatever fails ----------------------

  /** At its turn a directory's live files are still as they were at the start; afterwards no turn touches them. */
  lemma {:induction false} TurnOf(fs: Tree, dirs: seq<string>, run: nat, f: Faults, t: Tally, i: nat)
      returns (before: Tally, after: Tally)
    requires Swept(fs, dirs, run, f, t) && Distinct(dirs) && i < |dirs|
    ensures Swept(fs, dirs[..i], run, f, before) && Stepped(before, dirs[i], run, f, after)
    ensures forall k: Kind :: SameAt(fs, before.fs, Live(dirs[i], k)) && SameAt(after.fs, t.fs, Live(dirs[i], k))
    ensures SameOutside(fs, before.fs, dirs[..i], run)
    ensures before.aborted ==> t.aborted
  {
    hide After, Decides, SameAt, Touchable;
    var n := |dirs| - 1;
    var s :| Swept(fs, dirs[..n], run, f, s) && Stepped(s, dirs[n], run, f, t);
    if i == n {
      before, after := s, t;
      SweptSameOutside(fs, dirs[..n], run, f, s);
      NotYetTouched(fs, s.fs, dirs[..n], run, dirs[n]);
      SameEverywhere(t.fs);
    } else {
      assert dirs[..n][..i] == dirs[..i] && dirs[..n][i] == dirs[i];
      before, after := TurnOf(fs, dirs[..n], run, f, s, i);
      OtherTurn(s, dirs[n], run, f, t, dirs[i]);
      forall k: Kind
        ensures SameAt(after.fs, t.fs, Live(dirs[i], k))
      {
        SameTrans(after.fs, s.fs, t.fs, Live(dirs[i], k));
      }
    }
  }

  lemma SameEverywhere(fs: Tree)
    ensures forall p: Path :: SameAt(fs, fs, p)
  {
  }

  lemma SameTrans(fs: Tree, gs: Tree, hs: Tree, p: Path)
    requires SameAt(fs, gs, p) && SameAt(gs, hs, p)
    ensures SameAt(fs, hs, p)
  {
  }

  lemma OtherTurn(s: Tally, e: string, run: nat, f: Faults, t: Tally, d: string)
    requires Stepped(s, e, run, f, t) && d != e
    ensures forall k: Kind :: SameAt(s.fs, t.fs, Live(d, k))
    ensures s.aborted ==> t.aborted
  {
    hide After, Decides;
    if !s.aborted {
      var v :| Decides(s.fs, e, f, v) && t == After(s, e, run, f, v);
      forall k: Kind
        ensures SameAt(s.fs, t.fs, Live(d, k))
      {
        AfterFrame(s, e, run, f, v, Live(d, k));
      }
    }
  }

  /** What the replacement leaves at a live path. */
  lemma {:induction false} LiveAfter(fs: Tree, d: string, kinds: seq<Kind>, n: nat, run: nat, f: Faults, k: Kind)
    requires k in kinds && forall i, j :: 0 <= i < j < |kinds| ==> kinds[i] != kinds[j]
    ensures var p, gs := Live(d, k), AllReplaced(fs, d, kinds, n, run, f);
            if p in f.noRemove && p in fs then p in gs && gs[p] == fs[p]
            else if p in f.noLink then p !in gs
            else p in gs && gs[p] == Link(Archive(d, PemName(k, n)))
  {
    hide Replaced, PemName;
    var i := |kinds| - 1;
    var before := AllReplaced(fs, d, kinds[..i], n, run, f);
    if k == kinds[i] {
      AllReplacedFrame(fs, d, kinds[..i], n, run, f, Live(d, k));
      ReplacedLive(before, d, k, n, run, f);
    } else {
      LiveAfter(fs, d, kinds[..i], n, run, f, k);
      ReplacedAt(before, d, kinds[i], n, run, f, Live(d, k));
    }
  }

  lemma ReplacedLive(fs: Tree, d: string, k: Kind, n: nat, run: nat, f: Faults)
    ensures var p, gs := Live(d, k), Replaced(fs, d, k, n, run, f);
            if p in f.noRemove && p in fs then p in gs && gs[p] == fs[p]
            else if p in f.noLink then p !in gs
            else p in gs && gs[p] == Link(Archive(d, PemName(k, n)))
  {
    hide PemName;
  }

  /** Whatever fails, in any part of the sweep: the certificate of a directory judged repairable reads as before if and
      only if the sweep is cut short before it, or the file cannot be removed, or the link can be made and
      archive/<d>/cert<n>.pem reads as the live bytes, one link short of the limit. The code compares the file it parsed
      the number from instead, and does not look at what became of the removal. */
  lemma CertKeptIff(fs: Tree, dirs: seq<string>, run: nat, f: Faults, t: Tally, i: nat, before: Tally, n: nat)
    requires Swept(fs, dirs, run, f, t) && Distinct(dirs) && i < |dirs| && Swept(fs, dirs[..i], run, f, before)
    requires ArchiveSheltered(fs, dirs[i], dirs, run) && Decides(fs, dirs[i], f, Relink(n))
    ensures var d, p := dirs[i], Live(dirs[i], Cert);
            && p in fs && fs[p].File?
            && (Resolve(t.fs, p, HOPS) == Resolve(fs, p, HOPS)
                <==> || before.aborted
                     || p in f.noRemove
                     || (p !in f.noLink && Resolve(fs, Archive(d, PemName(Cert, n)), HOPS - 1) == Some(fs[p].bytes)))
  {
    hide PemName, Decides, Swept, Sheltered, SameOutside, Touchable, AllReplaced, OnBest;
    var d, p := dirs[i], Live(dirs[i], Cert);
    RepairableCert(fs, d, f, n);
    var s, after := TurnOf(fs, dirs, run, f, t, i);
    SweptOnce(fs, dirs[..i], run, f, s, before);
    if !s.aborted {
      ShelteredPrefix(fs, d, dirs, run, i);
      var v :| Decides(s.fs, d, f, v) && after == After(s, d, run, f, v);
      DecidesLocal(fs, s.fs, d, dirs[..i], run, f, v);
      DecidesOnce(fs, d, f, v, Relink(n));
      EveryKind();
      LiveAfter(s.fs, d, KINDS, n, run, f, Cert);
      assert Sheltered(fs, Archive(d, PemName(Cert, n)), dirs, run, HOPS);
      ShelteredFile(fs, dirs, run, f, t, Archive(d, PemName(Cert, n)), HOPS, HOPS - 1);
    }
  }

  lemma RepairableCert(fs: Tree, d: string, f: Faults, n: nat)
    requires Decides(fs, d, f, Relink(n))
    ensures Live(d, Cert) in fs && fs[Live(d, Cert)].File?
  {
    hide IsBest, OnBest;
  }

  lemma ShelteredPrefix(fs: Tree, d: string, dirs: seq<string>, run: nat, i: nat)
    requires ArchiveSheltered(fs, d, dirs, run) && i <= |dirs|
    ensures ArchiveSheltered(fs, d, dirs[..i], run)
  {
    forall name
      ensures Sheltered(fs, Archive(d, name), dirs[..i], run, HOPS)
    {
      ShelteredLess(fs, Archive(d, name), dirs, run, HOPS, dirs[..i], HOPS);
    }
  }

  /** A sweep has one outcome. */
  lemma {:induction false} SweptOnce(fs: Tree, dirs: seq<string>, run: nat, f: Faults, t: Tally, u: Tally)
    requires Swept(fs, dirs, run, f, t) && Swept(fs, dirs, run, f, u)
    ensures t == u
  {
    hide Decides, After;
    if dirs != [] {
      var n := |dirs| - 1;
      var s :| Swept(fs, dirs[..n], run, f, s) && Stepped(s, dirs[n], run, f, t);
      var r :| Swept(fs, dirs[..n], run, f, r) && Stepped(r, dirs[n], run, f, u);
      SweptOnce(fs, dirs[..n], run, f, s, r);
      if !s.aborted {
        var v :| Decides(s.fs, dirs[n], f, v) && t == After(s, dirs[n], run, f, v);
        var w :| Decides(s.fs, dirs[n], f, w) && u == After(s, dirs[n], run, f, w);
        DecidesOnce(s.fs, dirs[n], f, v, w);
      }
    }
  }

  /** Whatever fails, a directory judged in any other way keeps its four live files. */
  lemma OtherVerdictKeeps(fs: Tree, dirs: seq<string>, run: nat, f: Faults, t: Tally, i: nat, v: Verdict)
    requires Swept(fs, dirs, run, f, t) && Distinct(dirs) && i < |dirs|
    requires ArchiveSheltered(fs, dirs[i], dirs, run) && Decides(fs, dirs[i], f, v) && !v.Relink?
    ensures forall k: Kind :: SameAt(fs, t.fs, Live(dirs[i], k))
  {
    hide Decides, Swept, Sheltered, SameOutside, Touchable;
    var d := dirs[i];
    var s, after := TurnOf(fs, dirs, run, f, t, i);
    if !s.aborted {
      ShelteredPrefix(fs, d, dirs, run, i);
      var w :| Decides(s.fs, d, f, w) && after == After(s, d, run, f, w);
      DecidesLocal(fs, s.fs, d, dirs[..i], run, f, w);
      DecidesOnce(fs, d, f, v, w);
    }
    forall k: Kind
      ensures SameAt(fs, t.fs, Live(d, k))
    {
      assert SameAt(fs, s.fs, Live(d, k)) && SameAt(after.fs, t.fs, Live(d, k));
    }
  }

  /** Whatever fails, a directory whose highest matching generation lacks one of the four files keeps its live
      files, and its turn, if it comes, counts it as skipped. */
  lemma IncompleteSkipped(fs: Tree, dirs: seq<string>, run: nat, f: Faults, t: Tally, i: nat, n: nat)
      returns (before: Tally, after: Tally)
    requires Swept(fs, dirs, run, f, t) && Distinct(dirs) && i < |dirs|
    requires ArchiveSheltered(fs, dirs[i], dirs, run) && Highest(fs, dirs[i], f, n) && !AllFour(fs, dirs[i], n)
    ensures forall k: Kind :: SameAt(fs, t.fs, Live(dirs[i], k))
    ensures Swept(fs, dirs[..i], run, f, before) && Stepped(before, dirs[i], run, f, after)
    ensures !before.aborted ==> after == before.(skipped := before.skipped + 1)
  {
    hide Decides, Swept, Sheltered, SameOutside, Touchable, Highest, AllFour;
    var d := dirs[i];
    RepairableIff(fs, d, f, n);
    OtherVerdictKeeps(fs, dirs, run, f, t, i, Skip);
    before, after := TurnOf(fs, dirs, run, f, t, i);
    if !before.aborted {
      ShelteredPrefix(fs, d, dirs, run, i);
      var w :| Decides(before.fs, d, f, w) && after == After(before, d, run, f, w);
      DecidesLocal(fs, before.fs, d, dirs[..i], run, f, w);
      DecidesOnce(fs, d, f, w, Skip);
    }
  }

  lemma AfterAborts(s: Tally, d: string, run: nat, f: Faults, v: Verdict)
    ensures After(s, d, run, f, v).aborted <==> s.aborted || v.NoBackupDir?
  {
    hide AllReplaced;
  }

  /** The sweep is cut short exactly by a directory judged repairable whose backup directory cannot be made. */
  lemma {:induction false} AbortedIff(fs: Tree, dirs: seq<string>, run: nat, f: Faults, t: Tally, i: nat)
    requires i <= |dirs| && Swept(fs, dirs[..i], run, f, t) && Distinct(dirs)
    requires forall d <- dirs :: ArchiveSheltered(fs, d, dirs, run)
    ensures t.aborted <==> exists j :: 0 <= j < i && Decides(fs, dirs[j], f, NoBackupDir)
    decreases i
  {
    hide Decides, Sheltered, SameOutside, Touchable, After;
    if i > 0 {
      var n := i - 1;
      assert dirs[..i][..n] == dirs[..n] && dirs[..i][n] == dirs[n];
      var s :| Swept(fs, dirs[..n], run, f, s) && Stepped(s, dirs[n], run, f, t);
      AbortedIff(fs, dirs, run, f, s, n);
      if !s.aborted {
        var d := dirs[n];
        SweptSameOutside(fs, dirs[..n], run, f, s);
        assert d !in dirs[..n];
        NotYetTouched(fs, s.fs, dirs[..n], run, d);
        ShelteredPrefix(fs, d, dirs, run, n);
        var v :| Decides(s.fs, d, f, v) && t == After(s, d, run, f, v);
        AfterAborts(s, d, run, f, v);
        DecidesLocal(fs, s.fs, d, dirs[..n], run, f, v);
        if Decides(fs, d, f, NoBackupDir) {
          DecidesOnce(fs, d, f, v, NoBackupDir);
        }
      }
    }
  }

  /** The lost case: the certificate can be removed and the link cannot be made. It is gone, and the directory is merely
      counted as skipped. */
  lemma CertLost(s: Tally, d: string, run: nat, f: Faults, n: nat, hops: nat)
    requires Live(d, Cert) in f.noLink && Live(d, Cert) !in f.noRemove
    ensures var t := After(s, d, run, f, Relink(n));
            && Live(d, Cert) !in t.fs && Resolve(t.fs, Live(d, Cert), hops) == None
            && t.skipped == s.skipped + 1 && t.relinked == s.relinked && !(t.aborted && !s.aborted)
  {
    hide PemName, AllReplaced;
    EveryKind();
    LiveAfter(s.fs, d, KINDS, n, run, f, Cert);
    assert !CanLink(s.fs, Live(d, Cert), f);
  }

  /** The sweep has replaced the certificate of `d` by a link to generation `n`. */
  predicate Repaired(fs: Tree, gs: Tree, d: string, n: nat) {
    && Live(d, Cert) in fs && fs[Live(d, Cert)].File?
    && Live(d, Cert) in gs && gs[Live(d, Cert)] == Link(Archive(d, PemName(Cert, n)))
  }

  /** For a certificate that was replaced it is enough that this one archive file does not lead into a listed live
      directory: it reads as before if and only if that file held the live bytes. */
  lemma ReplacedCertKeptIff(fs: Tree, dirs: seq<string>, run: nat, f: Faults, t: Tally, d: string, n: nat)
    requires Swept(fs, dirs, run, f, t) && Repaired(fs, t.fs, d, n)
    requires Sheltered(fs, Archive(d, PemName(Cert, n)), dirs, run, HOPS - 1)
    ensures Resolve(t.fs, Live(d, Cert), HOPS) == Resolve(fs, Live(d, Cert), HOPS)
            <==> Resolve(fs, Archive(d, PemName(Cert, n)), HOPS - 1) == Some(fs[Live(d, Cert)].bytes)
  {
    hide PemName, Swept, Sheltered;
    ShelteredFile(fs, dirs, run, f, t, Archive(d, PemName(Cert, n)), HOPS - 1, HOPS - 1);
  }

  /** The chain of links from `p` comes to `q` within `steps`, through paths that are the same in both trees. */
  predicate LeadsTo(fs: Tree, gs: Tree, p: Path, q: Path, steps: nat)
    decreases steps
  {
    || p == q
    || (steps > 0 && SameAt(fs, gs, p) && p in fs && fs[p].Link? && LeadsTo(fs, gs, fs[p].target, q, steps - 1))
  }

  /** Whatever fails and whatever the tree: when the archive file leads back to the certificate, through paths the sweep
      leaves alone, the replaced certificate can no longer be read. */
  lemma {:induction false} ChainThroughCertUnreadable(fs: Tree, t: Tally, d: string, n: nat, steps: nat, hops: nat)
    requires Repaired(fs, t.fs, d, n) && LeadsTo(fs, t.fs, Archive(d, PemName(Cert, n)), Live(d, Cert), steps)
    ensures Resolve(t.fs, Live(d, Cert), hops) == None
    decreases hops
  {
    hide PemName;
    if hops > 0 {
      forall h: nat | h < hops
        ensures Resolve(t.fs, Live(d, Cert), h) == None
      {
        ChainThroughCertUnreadable(fs, t, d, n, steps, h);
      }
      LeadsToUnreadable(fs, t.fs, Archive(d, PemName(Cert, n)), Live(d, Cert), steps, hops - 1);
    }
  }

  lemma {:induction false} LeadsToUnreadable(fs: Tree, gs: Tree, p: Path, q: Path, steps: nat, hops: nat)
    requires LeadsTo(fs, gs, p, q, steps) && forall h: nat :: h <= hops ==> Resolve(gs, q, h) == None
    ensures Resolve(gs, p, hops) == None
    decreases steps
  {
    if p != q && hops > 0 {
      LeadsToUnreadable(fs, gs, fs[p].target, q, steps - 1, hops - 1);
    }
  }

  /** The archive files of the listed directories read within `depth` links or not at all; 0 if they are regular
      files. */
  ghost predicate ArchiveDepth(fs: Tree, dirs: seq<string>, depth: nat) {
    forall d, name :: d in dirs && Resolve(fs, Archive(d, name), HOPS).Some?
                      ==> Resolve(fs, Archive(d, name), depth) == Resolve(fs, Archive(d, name), HOPS)
  }

  /** As certbot keeps it, an archive of regular files: it is sheltered, and no link is followed in it. */
  lemma RegularArchive(fs: Tree, dirs: seq<string>, run: nat)
    requires forall p <- fs :: p.Archive? ==> fs[p].File?
    ensures forall d :: ArchiveSheltered(fs, d, dirs, run)
    ensures ArchiveDepth(fs, dirs, 0)
  {
  }

  /** With canonical numbers every certificate reads the same bytes after the sweep, through at most one link more than
      before and than its archive needs. */
  lemma {:induction false} ServedBytesKept(fs: Tree, dirs: seq<string>, run: nat, t: Tally, depth: nat, p: Path,
                                           hops: nat)
    requires Swept(fs, dirs, run, NO_FAULTS, t) && Distinct(dirs)
    requires (forall d <- dirs :: ArchiveSheltered(fs, d, dirs, run)) && ArchiveDepth(fs, dirs, depth) && depth <= HOPS
    requires Canonical(fs) && StableLinks(fs, run) && Stable(p, run)
    ensures Resolve(fs, p, hops).Some? ==> Resolve(t.fs, p, hops + depth + 1) == Resolve(fs, p, hops)
    decreases hops
  {
    hide PemName, Decides, Swept, ArchiveSheltered, ArchiveDepth, Canonical;
    if p in fs {
      KeptOrCopied(fs, dirs, run, t, depth, p, hops);
      if fs[p].Link? && hops > 0 {
        ServedBytesKept(fs, dirs, run, t, depth, fs[p].target, hops - 1);
      }
    }
  }

  /** A stable path keeps its node, unless it is a cert.pem replaced by a link to a copy of it. */
  lemma KeptOrCopied(fs: Tree, dirs: seq<string>, run: nat, t: Tally, depth: nat, p: Path, hops: nat)
    requires Swept(fs, dirs, run, NO_FAULTS, t) && Distinct(dirs)
    requires (forall d <- dirs :: ArchiveSheltered(fs, d, dirs, run)) && ArchiveDepth(fs, dirs, depth) && depth <= HOPS
    requires Canonical(fs) && Stable(p, run) && p in fs
    ensures SameAt(fs, t.fs, p) || (fs[p].File? && Resolve(t.fs, p, hops + depth + 1) == Some(fs[p].bytes))
  {
    hide PemName, Decides, Swept, ArchiveSheltered, Canonical, Resolve, IsBest;
    if p.Live? && p.dir in dirs {
      var d := p.dir;
      EveryDirSettled(fs, dirs, run, t, d);
      var v :| Decides(fs, d, NO_FAULTS, v) && Settled(fs, t.fs, d, run, v);
      if v.Relink? {
        RepairedReads(fs, dirs, run, t, d, v.generation, Cert, depth);
        CanonicalCopy(fs, d, v.generation);
        assert Resolve(fs, Archive(d, PemName(Cert, v.generation)), HOPS).Some?;
        ResolveMore(t.fs, p, depth + 1, hops + depth + 1);
      }
    } else {
      ArchiveUntouched(fs, dirs, run, NO_FAULTS, t, p);
    }
  }

  lemma CanonicalCopy(fs: Tree, d: string, n: nat)
    requires Canonical(fs) && Decides(fs, d, NO_FAULTS, Relink(n))
    ensures Live(d, Cert) in fs && fs[Live(d, Cert)].File?
    ensures Resolve(fs, Archive(d, PemName(Cert, n)), HOPS) == Some(fs[Live(d, Cert)].bytes)
  {
    hide PemName, Decides, GenerationOf;
    ChosenGeneration(fs, d, n, "", 0);
    var name :| Matches(fs, d, name, n, fs[Live(d, Cert)].bytes, NO_FAULTS);
    assert Archive(d, name).name == PemName(Cert, n);
  }

  /** A second sweep over the same directories repairs nothing and leaves the tree as it is. */
  lemma SecondSweepRelinksNone(fs: Tree, dirs: seq<string>, run: nat, t: Tally, run': nat, u: Tally)
    requires Swept(fs, dirs, run, NO_FAULTS, t) && Distinct(dirs)
    requires forall d <- dirs :: ArchiveSheltered(fs, d, dirs, run)
    requires Swept(t.fs, dirs, run', NO_FAULTS, u)
    ensures u.relinked == 0 && u.fs == t.fs && !u.aborted
  {
    hide PemName, Decides, Swept, ArchiveSheltered, SameOutside;
    SweptSameOutside(fs, dirs, run, NO_FAULTS, t);
    forall d, w | d in dirs && Decides(t.fs, d, NO_FAULTS, w)
      ensures !w.Relink?
    {
      EveryDirSettled(fs, dirs, run, t, d);
      var v :| Decides(fs, d, NO_FAULTS, v) && Settled(fs, t.fs, d, run, v);
      if v.Relink? {
        HealthyOnce(t.fs, d, NO_FAULTS);
        DecidesOnce(t.fs, d, NO_FAULTS, w, Healthy);
      } else {
        DecidesLocal(fs, t.fs, d, dirs, run, NO_FAULTS, w);
        DecidesOnce(fs, d, NO_FAULTS, v, w);
      }
    }
    NothingToRelink(t.fs, dirs, run', u);
  }

  lemma HealthyOnce(fs: Tree, d: string, f: Faults)
    requires Live(d, Cert) in fs && fs[Live(d, Cert)].Link?
    ensures Decides(fs, d, f, Healthy)
  {
  }

  lemma {:induction false} NothingToRelink(fs: Tree, dirs: seq<string>, run: nat, t: Tally)
    requires Swept(fs, dirs, run, NO_FAULTS, t)
    requires forall d, w :: d in dirs && Decides(fs, d, NO_FAULTS, w) ==> !w.Relink?
    ensures t.fs == fs && t.relinked == 0 && !t.aborted
  {
    NeverAborts(fs, dirs, run, t);
    hide Decides;
    if dirs != [] {
      var n := |dirs| - 1;
      var s :| Swept(fs, dirs[..n], run, NO_FAULTS, s) && Stepped(s, dirs[n], run, NO_FAULTS, t);
      NothingToRelink(fs, dirs[..n], run, s);
      var v :| Decides(s.fs, dirs[n], NO_FAULTS, v) && t == After(s, dirs[n], run, NO_FAULTS, v);
      assert dirs[n] in dirs;
    }
  }

  // ---- where the promise fails -----------------------------------------

  /** A live certificate of one directory and an archive with a complete generation 3 and one file besides. */
  function Example(live: string, cert3: Node, extra: string): Tree {
    map[Live("d", Cert) := File(live), Archive("d", PemName(Cert, 3)) := cert3,
        Archive("d", PemName(Chain, 3)) := File("x"), Archive("d", PemName(Fullchain, 3)) := File("x"),
        Archive("d", PemName(Privkey, 3)) := File("x"), Archive("d", extra) := File(live)]
  }

  lemma ExampleJudged(live: string, cert3: Node, extra: string)
    requires Resolve(Example(live, cert3, extra), Archive("d", PemName(Cert, 3)), HOPS).Some?
    requires GenerationOf(extra) in {None, Some(3)} && forall k :: extra != PemName(k, 3)
    requires GenerationOf(extra) == Some(3)
             || Resolve(Example(live, cert3, extra), Archive("d", PemName(Cert, 3)), HOPS) == Some(live)
    ensures Decides(Example(live, cert3, extra), "d", NO_FAULTS, Relink(3))
  {
    hide PemName, GenerationOf;
    var fs := Example(live, cert3, extra);
    GenerationOfPem(3);
    PemApart();
    var name := if GenerationOf(extra) == Some(3) then extra else PemName(Cert, 3);
    assert Matches(fs, "d", name, 3, live, NO_FAULTS);
    assert IsBest(fs, "d", live, NO_FAULTS, 3);
    assert Complete(fs, "d", 3);
  }

  /** The first two letters tell the kinds apart. */
  function Head(k: Kind): string {
    match k
    case Cert => "ce"
    case Chain => "ch"
    case Fullchain => "fu"
    case Privkey => "pr"
  }

  lemma PemHead(k: Kind, n: nat)
    ensures |PemName(k, n)| >= 2 && PemName(k, n)[..2] == Head(k)
  {
    var rest := Itoa(n) + ".pem";
    assert PemName(k, n) == KindName(k) + rest;
    assert |KindName(k)| >= 2 && KindName(k)[..2] == Head(k) by {
      match k
      case Cert =>
      case Chain =>
      case Fullchain =>
      case Privkey =>
    }
    assert (KindName(k) + rest)[..2] == KindName(k)[..2];
  }

  lemma HeadsApart(j: Kind, k: Kind)
    ensures |Head(k)| == 2
    ensures j != k ==> Head(j) != Head(k)
  {
    assert Head(Cert)[1] == 'e' && Head(Chain)[1] == 'h' && Head(Fullchain)[1] == 'u' && Head(Privkey)[1] == 'r';
  }

  lemma NotACert(name: string)
    requires |name| >= 2 && name[..2] != "ce"
    ensures GenerationOf(name) == None
  {
    var prefix := "cert";
    assert name[..2] == [name[0], name[1]] && "ce" == ['c', 'e'];
    assert prefix[0] == 'c' && prefix[1] == 'e';
  }

  lemma PemApart()
    ensures forall k :: k != Cert ==> GenerationOf(PemName(k, 3)) == None
    ensures forall j, k :: j != k ==> PemName(j, 3) != PemName(k, 3)
  {
    hide PemName, Head, GenerationOf;
    forall k: Kind | k != Cert
      ensures GenerationOf(PemName(k, 3)) == None
    {
      PemHead(k, 3);
      HeadsApart(k, Cert);
      CertHead();
      NotACert(PemName(k, 3));
    }
    forall j: Kind, k: Kind | j != k
      ensures PemName(j, 3) != PemName(k, 3)
    {
      PemHead(j, 3);
      PemHead(k, 3);
      HeadsApart(j, k);
      HeadsApart(k, j);
    }
  }

  lemma CertHead()
    ensures Head(Cert) == "ce"
  {
  }

  /** Zero-padded names break it: with cert03.pem holding the live certificate and cert3.pem another one, the repair
      serves the other one. */
  lemma PaddedNameServesOther(live: string, other: string, t: Tally)
    requires live != other && Swept(Example(live, File(other), "cert03.pem"), ["d"], 0, NO_FAULTS, t)
    ensures forall p <- Example(live, File(other), "cert03.pem") ::
              p.Archive? ==> Example(live, File(other), "cert03.pem")[p].File?
    ensures Resolve(t.fs, Live("d", Cert), HOPS) == Some(other)
  {
    hide PemName, GenerationOf, Swept, Decides;
    var fs := Example(live, File(other), "cert03.pem");
    PaddedName();
    ExampleJudged(live, File(other), "cert03.pem");
    PemApart();
    RegularArchive(fs, ["d"], 0);
    RepairedReads(fs, ["d"], 0, t, "d", 3, Cert, HOPS - 1);
  }

  lemma PaddedName()
    ensures GenerationOf("cert03.pem") == Some(3)
    ensures forall k :: PemName(k, 3) != "cert03.pem"
  {
    hide PemName, GenerationOf, Head;
    PaddedGeneration();
    forall k: Kind
      ensures PemName(k, 3) != "cert03.pem"
    {
      if k == Cert {
        Unpadded();
      } else {
        PemHead(k, 3);
        HeadsApart(k, Cert);
        CertHead();
        assert "cert03.pem"[..2] == "ce";
      }
    }
  }

  lemma PaddedGeneration()
    ensures GenerationOf("cert03.pem") == Some(3)
  {
    PaddedThree();
    Affixes("cert", "03", ".pem");
    assert "cert" + "03" + ".pem" == "cert03.pem";
  }

  lemma PaddedThree()
    ensures Atoi("03") == Some(3)
  {
    var s := "03";
    assert s[..1] == "0" && s[..1][..0] == "";
    assert Digits("") == Some(0);
    assert Digits(s[..1]) == Some(0);
    assert Digits(s) == Some(3);
  }

  lemma Unpadded()
    ensures PemName(Cert, 3) != "cert03.pem"
  {
    assert Itoa(3) == "3";
    assert PemName(Cert, 3) == "cert" + "3" + ".pem";
    assert ("cert" + "3" + ".pem")[4] == '3';
    assert "cert03.pem"[4] == '0';
  }

  /** So does an archive file that is itself a link back to the live one: after the repair the two links form a loop
      and the certificate can no longer be read. */
  lemma ArchiveLinkLoops(live: string, extra: string, t: Tally, hops: nat)
    requires GenerationOf(extra) == None && forall k :: extra != PemName(k, 3)
    requires Swept(Example(live, Link(Live("d", Cert)), extra), ["d"], 0, NO_FAULTS, t)
    ensures Resolve(t.fs, Live("d", Cert), hops) == None
  {
    hide PemName, GenerationOf, Decides;
    var cert3 := Link(Live("d", Cert));
    var fs := Example(live, cert3, extra);
    PemApart();
    ExampleJudged(live, cert3, extra);
    OneDirectory(fs, "d", 0, t);
    var v :| Decides(fs, "d", NO_FAULTS, v) && t == After(Tally(fs, 0, 0, 0, false), "d", 0, NO_FAULTS, v);
    DecidesOnce(fs, "d", NO_FAULTS, v, Relink(3));
    AfterLinks(Tally(fs, 0, 0, 0, false), "d", 0, 3);
    AfterFrame(Tally(fs, 0, 0, 0, false), "d", 0, NO_FAULTS, v, Archive("d", PemName(Cert, 3)));
    assert Repaired(fs, t.fs, "d", 3);
    ChainThroughCertUnreadable(fs, t, "d", 3, 1, hops);
  }

  lemma OneDirectory(fs: Tree, d: string, run: nat, t: Tally)
    requires Swept(fs, [d], run, NO_FAULTS, t)
    ensures exists v :: Decides(fs, d, NO_FAULTS, v) && t == After(Tally(fs, 0, 0, 0, false), d, run, NO_FAULTS, v)
  {
    hide After, Decides;
    var s :| Swept(fs, [d][..0], run, NO_FAULTS, s) && Stepped(s, d, run, NO_FAULTS, t);
    assert [d][..0] == [];
  }
}
