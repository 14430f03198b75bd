/** The shell script that repoints a transferred server's DNS zone from the source address to the destination. */
module Repoint {
  import opened Text
  import opened Options
  import opened Lists
  import ZoneRecords

  // ---- awk's gsub(/ip4:[^ "]+/, "ip4:" dst) ----------------------------

  const STOP: set<char> := {' ', '"'}

  /** Length of the leading run of characters outside STOP. */
  function RunLen(s: string): (n: nat)
    ensures n <= |s|
    ensures s != "" && s[0] !in STOP ==> n > 0
  {
    if s == "" || s[0] in STOP then 0 else RunLen(s[1..]) + 1
  }

  /** The pattern matches at the start of `s`. */
  predicate Hits(s: string, mark: string) {
    mark <= s && |mark| < |s| && s[|mark|] !in STOP
  }

  /** Leftmost, longest matches, each replaced by the mark and `dst`. */
  function Gsub(s: string, mark: string, dst: string): string
    decreases |s|
  {
    if s == "" then ""
    else if Hits(s, mark) then mark + dst + Gsub(s[|mark| + RunLen(s[|mark|..])..], mark, dst)
    else [s[0]] + Gsub(s[1..], mark, dst)
  }

  predicate IsMark(mark: string) {
    mark != "" && Free(mark, STOP)
  }

  lemma {:induction false} RunLenSep(a: string, c: char, b: string)
    requires c in STOP
    ensures RunLen(a + [c] + b) == RunLen(a)
  {
    if a != "" {
      assert (a + [c] + b)[1..] == a[1..] + [c] + b;
      RunLenSep(a[1..], c, b);
    }
  }

  lemma {:induction false} RunLenSpec(s: string)
    ensures var n := RunLen(s); Free(s[..n], STOP) && (n < |s| ==> s[n] in STOP)
  {
    if s != "" && s[0] !in STOP {
      RunLenSpec(s[1..]);
      assert s[..RunLen(s)] == [s[0]] + s[1..][..RunLen(s[1..])];
    }
  }

  lemma {:induction false} RunLenAll(s: string)
    requires Free(s, STOP)
    ensures RunLen(s) == |s|
  {
    if s != "" {
      RunLenAll(s[1..]);
    }
  }

  lemma HitsSep(a: string, c: char, b: string, mark: string)
    requires IsMark(mark) && c in STOP
    ensures Hits(a + [c] + b, mark) == Hits(a, mark)
  {
    var s := a + [c] + b;
    assert s[|a|] == c && s[..|a|] == a;
    forall k | 0 <= k < |mark|
      ensures mark[k] != c
    {
    }
    assert |mark| <= |a| ==> s[..|mark|] == a[..|mark|];
  }

  /** A separator splits the work. */
  lemma {:induction false} GsubSep(a: string, c: char, b: string, mark: string, dst: string)
    requires IsMark(mark) && c in STOP
    ensures Gsub(a + [c] + b, mark, dst) == Gsub(a, mark, dst) + [c] + Gsub(b, mark, dst)
    decreases |a|
  {
    hide Hits, RunLen, IsMark, Free;
    var s := a + [c] + b;
    HitsSep(a, c, b, mark);
    if a == "" {
      HitsEmpty(mark);
      assert s[1..] == b && s[0] == c;
    } else if Hits(a, mark) {
      var tail := HitsTail(a, mark);
      assert s[|mark|..] == tail + [c] + b;
      RunLenSep(tail, c, b);
      var n := RunLen(tail);
      assert s[|mark| + n..] == tail[n..] + [c] + b && a[|mark| + n..] == tail[n..];
      GsubSep(tail[n..], c, b, mark, dst);
      Concat4(mark + dst, Gsub(tail[n..], mark, dst), [c], Gsub(b, mark, dst));
    } else {
      assert s[0] == a[0] && s[1..] == a[1..] + [c] + b;
      GsubSep(a[1..], c, b, mark, dst);
      Concat4([a[0]], Gsub(a[1..], mark, dst), [c], Gsub(b, mark, dst));
    }
  }

  lemma HitsEmpty(mark: string)
    ensures !Hits("", mark)
  {
  }

  lemma HitsTail(s: string, mark: string) returns (tail: string)
    requires Hits(s, mark)
    ensures |mark| < |s| && tail == s[|mark|..] && tail != "" && tail[0] !in STOP && s == mark + tail
  {
    tail := s[|mark|..];
  }

  lemma Concat4(a: string, b: string, c: string, d: string)
    ensures a + (b + c + d) == a + b + c + d
  {
  }

  /** Within a run of characters free of spaces and quotes, everything after the first mark becomes `dst`, provided
      something follows it. */
  lemma {:induction false} GsubSegment(seg: string, mark: string, dst: string)
    requires IsMark(mark) && Free(seg, STOP)
    ensures var i := Index(seg, mark);
            Gsub(seg, mark, dst) == if 0 <= i && i + |mark| < |seg| then seg[..i + |mark|] + dst else seg
    decreases |seg|
  {
    if Hits(seg, mark) {
      var tail := HitsTail(seg, mark);
      RunLenAll(tail);
      assert seg[|seg|..] == "" && mark + dst + "" == mark + dst;
      assert seg[..|mark|] == mark;
    } else if seg != "" {
      GsubSegment(seg[1..], mark, dst);
      SegmentTail(seg, mark, dst);
    }
  }

  lemma SegmentTail(seg: string, mark: string, dst: string)
    requires IsMark(mark) && Free(seg, STOP) && !Hits(seg, mark) && seg != ""
    ensures var i, j := Index(seg[1..], mark), Index(seg, mark);
            (if 0 <= j && j + |mark| < |seg| then seg[..j + |mark|] + dst else seg)
            == [seg[0]] + if 0 <= i && i + |mark| < |seg| - 1 then seg[1..][..i + |mark|] + dst else seg[1..]
  {
    var i := Index(seg[1..], mark);
    assert seg == [seg[0]] + seg[1..];
    if mark <= seg {
      assert |seg| == |mark|;
      IndexFits(seg[1..], mark);
    } else if 0 <= i && i + |mark| < |seg| - 1 {
      assert seg[..i + 1 + |mark|] == [seg[0]] + seg[1..][..i + |mark|];
      Assoc([seg[0]], seg[1..][..i + |mark|], dst);
    }
  }

  lemma IndexFits(s: string, sub: string)
    requires |s| < |sub|
    ensures Index(s, sub) == -1
  {
    IndexFirst(s, sub);
  }

  predicate IsTarget(dst: string) {
    dst != "" && Free(dst, STOP) && Free(dst, SPACE)
  }

  /** Cutting after the first mark keeps it the first. */
  lemma {:induction false} IndexAgain(s: string, mark: string, dst: string)
    requires Index(s, mark) >= 0
    ensures Index(s, mark) + |mark| <= |s|
    ensures Index(s[..Index(s, mark) + |mark|] + dst, mark) == Index(s, mark)
  {
    var i, m := Index(s, mark), |mark|;
    if !(mark <= s) {
      IndexAgain(s[1..], mark, dst);
      var t := s[..i + m] + dst;
      assert t[1..] == s[1..][..i - 1 + m] + dst;
      assert t[..m] == s[..m];
    } else {
      assert s[..m] + dst == mark + dst;
    }
  }

  lemma SegmentTwice(seg: string, mark: string, dst: string)
    requires IsMark(mark) && IsTarget(dst) && Free(seg, STOP)
    ensures Gsub(Gsub(seg, mark, dst), mark, dst) == Gsub(seg, mark, dst)
    ensures Free(Gsub(seg, mark, dst), STOP)
  {
    hide Gsub, Index;
    GsubSegment(seg, mark, dst);
    var i := Index(seg, mark);
    if 0 <= i && i + |mark| < |seg| {
      var out := seg[..i + |mark|] + dst;
      IndexAgain(seg, mark, dst);
      GsubSegment(out, mark, dst);
      assert out[..i + |mark|] == seg[..i + |mark|];
    }
  }

  /** Rewriting twice is rewriting once. */
  lemma {:induction false} GsubTwice(s: string, mark: string, dst: string)
    requires IsMark(mark) && IsTarget(dst)
    ensures Gsub(Gsub(s, mark, dst), mark, dst) == Gsub(s, mark, dst)
    decreases |s|
  {
    hide Gsub;
    var n := RunLen(s);
    RunLenSpec(s);
    if n == |s| {
      assert s[..n] == s;
      SegmentTwice(s, mark, dst);
    } else {
      var a, c, b := s[..n], s[n], s[n + 1..];
      assert s == a + [c] + b;
      SegmentTwice(a, mark, dst);
      GsubTwice(b, mark, dst);
      GsubSep(a, c, b, mark, dst);
      GsubSep(Gsub(a, mark, dst), c, Gsub(b, mark, dst), mark, dst);
    }
  }

  // ---- which addresses a replacement meets -----------------------------

  /** The addresses the pattern matches, in order. */
  function Runs(s: string, mark: string): seq<string>
    decreases |s|
  {
    if s == "" then []
    else if Hits(s, mark) then
      var n := RunLen(s[|mark|..]);
      [s[|mark|..][..n]] + Runs(s[|mark| + n..], mark)
    else Runs(s[1..], mark)
  }

  /** The promised rewriting: only the source's address is replaced. */
  function GsubSource(s: string, mark: string, src: string, dst: string): string
    decreases |s|
  {
    if s == "" then ""
    else if Hits(s, mark) then
      var n := RunLen(s[|mark|..]);
      mark + Swap(s[|mark|..][..n], src, dst) + GsubSource(s[|mark| + n..], mark, src, dst)
    else [s[0]] + GsubSource(s[1..], mark, src, dst)
  }

  /** What follows a match starts with a separator, before and after either rewriting. */
  lemma RestSeparated(rest: string, mark: string, src: string, dst: string)
    requires IsMark(mark) && (rest != "" ==> rest[0] in STOP)
    ensures var g, o := Gsub(rest, mark, dst), GsubSource(rest, mark, src, dst);
            (g != "" ==> g[0] in STOP) && (o != "" ==> o[0] in STOP)
  {
    assert rest != "" ==> !Hits(rest, mark);
  }

  /** Two texts that go on with a separator after their first run are equal only run by run. */
  lemma {:induction false} RunsApart(r: string, x: string, q: string, y: string)
    requires Free(r, STOP) && Free(q, STOP)
    requires (x != "" ==> x[0] in STOP) && (y != "" ==> y[0] in STOP)
    ensures r + x == q + y <==> r == q && x == y
  {
    if r + x == q + y {
      RunLenOf(r, x);
      RunLenOf(q, y);
      assert (r + x)[..|r|] == r && (q + y)[..|q|] == q;
      assert (r + x)[|r|..] == x && (q + y)[|q|..] == y;
    }
  }

  lemma {:induction false} RunLenOf(r: string, x: string)
    requires Free(r, STOP) && (x != "" ==> x[0] in STOP)
    ensures RunLen(r + x) == |r|
  {
    if r == "" {
      assert r + x == x;
    } else {
      assert (r + x)[1..] == r[1..] + x;
      RunLenOf(r[1..], x);
    }
  }

  lemma SameHead(a: string, x: string, y: string)
    ensures a + x == a + y <==> x == y
  {
    assert (a + x)[|a|..] == x && (a + y)[|a|..] == y;
  }

  /** The rewriting made is the promised one if and only if it meets no address but the source's and the
      destination's. */
  lemma {:induction false} SourceOnlyIff(s: string, mark: string, src: string, dst: string)
    requires IsMark(mark) && IsTarget(dst)
    ensures Gsub(s, mark, dst) == GsubSource(s, mark, src, dst) <==> forall r <- Runs(s, mark) :: r in {src, dst}
    decreases |s|
  {
    hide Gsub, GsubSource, Runs, Hits, IsTarget, IsMark;
    if s == "" {
      Unmatched(s, mark, src, dst);
    } else if Hits(s, mark) {
      var addr, rest := Matched(s, mark, src, dst);
      SourceOnlyIff(rest, mark, src, dst);
      RestSeparated(rest, mark, src, dst);
      MatchSourceOnly(mark, addr, Gsub(rest, mark, dst), GsubSource(rest, mark, src, dst), src, dst);
      AllOf(addr, Runs(rest, mark), {src, dst});
    } else {
      Unmatched(s, mark, src, dst);
      SourceOnlyIff(s[1..], mark, src, dst);
      SameHead([s[0]], Gsub(s[1..], mark, dst), GsubSource(s[1..], mark, src, dst));
    }
  }

  /** At a match: the address met, and what the two rewritings make of it. */
  lemma Matched(s: string, mark: string, src: string, dst: string) returns (addr: string, rest: string)
    requires Hits(s, mark)
    ensures |rest| < |s| && Free(addr, STOP) && (rest != "" ==> rest[0] in STOP)
    ensures Gsub(s, mark, dst) == mark + dst + Gsub(rest, mark, dst)
    ensures GsubSource(s, mark, src, dst) == mark + Swap(addr, src, dst) + GsubSource(rest, mark, src, dst)
    ensures Runs(s, mark) == [addr] + Runs(rest, mark)
  {
    hide Hits;
    var tail := HitsTail(s, mark);
    var n := RunLen(tail);
    RunLenSpec(tail);
    addr, rest := tail[..n], s[|mark| + n..];
    assert rest == tail[n..];
  }

  lemma Unmatched(s: string, mark: string, src: string, dst: string)
    requires !Hits(s, mark) || s == ""
    ensures s == "" ==> Gsub(s, mark, dst) == "" == GsubSource(s, mark, src, dst) && Runs(s, mark) == []
    ensures s != "" ==> Gsub(s, mark, dst) == [s[0]] + Gsub(s[1..], mark, dst)
    ensures s != "" ==> GsubSource(s, mark, src, dst) == [s[0]] + GsubSource(s[1..], mark, src, dst)
    ensures s != "" ==> Runs(s, mark) == Runs(s[1..], mark)
  {
    hide Hits;
  }

  lemma AllOf<T>(x: T, rest: seq<T>, ok: set<T>)
    ensures (forall r <- [x] + rest :: r in ok) <==> x in ok && forall r <- rest :: r in ok
  {
    assert forall r :: r in [x] + rest <==> r == x || r in rest;
  }

  lemma MatchSourceOnly(mark: string, addr: string, g: string, o: string, src: string, dst: string)
    requires Free(addr, STOP) && IsTarget(dst)
    requires (g != "" ==> g[0] in STOP) && (o != "" ==> o[0] in STOP)
    ensures mark + dst + g == mark + Swap(addr, src, dst) + o <==> addr in {src, dst} && g == o
  {
    var new_ := Swap(addr, src, dst);
    Assoc(mark, dst, g);
    Assoc(mark, new_, o);
    SameHead(mark, dst + g, new_ + o);
    RunsApart(dst, g, new_, o);
  }

  /** Every address met is replaced: the matches of the rewritten text are as many, and all the destination. */
  lemma {:induction false} RunsRewritten(s: string, mark: string, dst: string)
    requires IsMark(mark) && IsTarget(dst)
    ensures |Runs(Gsub(s, mark, dst), mark)| == |Runs(s, mark)|
    ensures forall r <- Runs(Gsub(s, mark, dst), mark) :: r == dst
    decreases |s|
  {
    hide Gsub, Runs;
    var n := RunLen(s);
    RunLenSpec(s);
    if n == |s| {
      assert s[..n] == s;
      SegmentRuns(s, mark, dst);
    } else {
      var a, c, b := s[..n], s[n], s[n + 1..];
      assert s == a + [c] + b;
      SegmentRuns(a, mark, dst);
      RunsRewritten(b, mark, dst);
      GsubSep(a, c, b, mark, dst);
      RunsSep(a, c, b, mark);
      RunsSep(Gsub(a, mark, dst), c, Gsub(b, mark, dst), mark);
    }
  }

  lemma {:induction false} RunsSep(a: string, c: char, b: string, mark: string)
    requires IsMark(mark) && c in STOP
    ensures Runs(a + [c] + b, mark) == Runs(a, mark) + Runs(b, mark)
    decreases |a|
  {
    hide Hits, RunLen, IsMark, Free;
    var s := a + [c] + b;
    HitsSep(a, c, b, mark);
    if a == "" {
      HitsEmpty(mark);
      assert s[1..] == b && s[0] == c;
    } else if Hits(a, mark) {
      var tail := HitsTail(a, mark);
      assert s[|mark|..] == tail + [c] + b;
      RunLenSep(tail, c, b);
      var n := RunLen(tail);
      assert s[|mark| + n..] == tail[n..] + [c] + b && a[|mark| + n..] == tail[n..];
      assert s[|mark|..][..n] == tail[..n];
      RunsSep(tail[n..], c, b, mark);
      Concat3([tail[..n]], Runs(tail[n..], mark), Runs(b, mark));
    } else {
      assert s[1..] == a[1..] + [c] + b;
      RunsSep(a[1..], c, b, mark);
    }
  }

  /** A run free of separators has at most one match: what follows its first mark. */
  lemma {:induction false} RunsSegment(seg: string, mark: string)
    requires IsMark(mark) && Free(seg, STOP)
    ensures var i := Index(seg, mark);
            Runs(seg, mark) == if 0 <= i && i + |mark| < |seg| then [seg[i + |mark|..]] else []
    decreases |seg|
  {
    if Hits(seg, mark) {
      var tail := HitsTail(seg, mark);
      RunLenAll(tail);
      assert seg[|seg|..] == "" && tail[..|tail|] == tail;
    } else if seg != "" {
      RunsSegment(seg[1..], mark);
      if mark <= seg {
        assert |seg| == |mark|;
        IndexFits(seg[1..], mark);
      } else {
        var i := Index(seg[1..], mark);
        assert i >= 0 && i + |mark| < |seg[1..]| ==> seg[1..][i + |mark|..] == seg[i + 1 + |mark|..];
      }
    }
  }

  lemma SegmentRuns(seg: string, mark: string, dst: string)
    requires IsMark(mark) && IsTarget(dst) && Free(seg, STOP)
    ensures |Runs(Gsub(seg, mark, dst), mark)| == |Runs(seg, mark)|
    ensures forall r <- Runs(Gsub(seg, mark, dst), mark) :: r == dst
  {
    hide Gsub, Index, Runs;
    SegmentTwice(seg, mark, dst);
    GsubSegment(seg, mark, dst);
    RunsSegment(seg, mark);
    RunsSegment(Gsub(seg, mark, dst), mark);
    var i := Index(seg, mark);
    if 0 <= i && i + |mark| < |seg| {
      IndexAgain(seg, mark, dst);
      var out := seg[..i + |mark|] + dst;
      assert out[i + |mark|..] == dst;
    }
  }

  // ---- one TXT value ---------------------------------------------------

  const MARK := "ip4:"
  const SPF := "v=spf1"

  /** awk prints the value's fields with single spaces, and rewrites it if it is an SPF policy. */
  function RewriteTxt(v: string, dst: string): string {
    var s := SingleSpaced(v);
    if Contains(s, SPF) then Gsub(s, MARK, dst) else s
  }

  lemma MarkOk()
    ensures IsMark(MARK) && Free(MARK, SPACE)
  {
  }

  lemma {:induction false} GsubToken(t: string, mark: string, dst: string)
    requires Free(t, SPACE) && Free(mark, SPACE) && mark != "" && IsTarget(dst)
    ensures Free(Gsub(t, mark, dst), SPACE) && (t != "" ==> Gsub(t, mark, dst) != "")
    decreases |t|
  {
    if Hits(t, mark) {
      GsubToken(t[|mark| + RunLen(t[|mark|..])..], mark, dst);
    } else if t != "" {
      GsubToken(t[1..], mark, dst);
    }
  }

  function GsubEach(tokens: seq<string>, mark: string, dst: string): (r: seq<string>)
    ensures |r| == |tokens|
  {
    seq(|tokens|, i requires 0 <= i < |tokens| => Gsub(tokens[i], mark, dst))
  }

  /** The rewriting works word by word. */
  lemma {:induction false} GsubWords(tokens: seq<string>, mark: string, dst: string)
    requires IsMark(mark)
    ensures Gsub(Join(tokens, " "), mark, dst) == Join(GsubEach(tokens, mark, dst), " ")
  {
    hide Gsub;
    if tokens == [] {
      GsubEmpty(mark, dst);
    } else if |tokens| > 1 {
      var rest := Join(tokens[1..], " ");
      GsubWords(tokens[1..], mark, dst);
      GsubSep(tokens[0], ' ', rest, mark, dst);
      assert GsubEach(tokens, mark, dst)[1..] == GsubEach(tokens[1..], mark, dst);
      assert tokens[0] + " " + rest == tokens[0] + [' '] + rest;
    }
  }

  lemma GsubEmpty(mark: string, dst: string)
    ensures Gsub("", mark, dst) == ""
  {
  }

  lemma GsubSpacing(v: string, mark: string, dst: string)
    requires IsMark(mark) && Free(mark, SPACE) && IsTarget(dst)
    ensures SingleSpaced(Gsub(SingleSpaced(v), mark, dst)) == Gsub(SingleSpaced(v), mark, dst)
  {
    hide Gsub, Fields, Join;
    var tokens := Fields(v);
    var out := GsubEach(tokens, mark, dst);
    FieldsTokens(v);
    GsubWords(tokens, mark, dst);
    forall i | 0 <= i < |out|
      ensures Token(out[i])
    {
      assert tokens[i] in tokens;
      GsubToken(tokens[i], mark, dst);
    }
    FieldsJoin("", out, "");
    assert "" + Join(out, " ") + "" == Join(out, " ");
  }

  /** A rewritten value is single-spaced, and rewriting it again changes nothing. */
  lemma RewriteTxtTwice(v: string, dst: string)
    requires IsTarget(dst)
    ensures SingleSpaced(RewriteTxt(v, dst)) == RewriteTxt(v, dst)
    ensures RewriteTxt(RewriteTxt(v, dst), dst) == RewriteTxt(v, dst)
  {
    hide SingleSpaced, Gsub, IsMark, Free, Contains;
    MarkOk();
    SingleSpacedIdempotent(v);
    GsubSpacing(v, MARK, dst);
    GsubTwice(SingleSpaced(v), MARK, dst);
  }

  // ---- the zone --------------------------------------------------------

  type Key = ZoneRecords.Key

  /** The values of an rrset, in no order, under their one TTL. */
  datatype ValueSet = ValueSet(ttl: string, values: set<string>)

  type Zone = map<Key, ValueSet>

  function Swap(v: string, src: string, dst: string): string {
    if v == src then dst else v
  }

  function NewA(src: string, dst: string): ValueSet -> ValueSet {
    (r: ValueSet) => ValueSet(r.ttl, set v <- r.values :: Swap(v, src, dst))
  }

  function NewTxt(dst: string): ValueSet -> ValueSet {
    (r: ValueSet) => ValueSet(r.ttl, set v <- r.values :: RewriteTxt(v, dst))
  }

  /** A line of the listing, as awk sees it. */
  function ListingLine(k: Key, ttl: string, v: string): string {
    k.name + "\t" + (ttl + "\t" + ("IN" + "\t" + (k.kind + "\t" + v)))
  }

  predicate HitA(k: Key, r: ValueSet, src: string) {
    k.kind == "A" && src in r.values
  }

  /** Some line of the TXT rrset has spf1 anywhere on it. */
  predicate HitTxt(k: Key, r: ValueSet) {
    k.kind == "TXT" && exists v <- r.values :: Contains(ListingLine(k, r.ttl, v), "spf1")
  }

  function HitsA(z: Zone, src: string): set<Key> {
    set k | k in z && HitA(k, z[k], src)
  }

  function HitsTxt(z: Zone): set<Key> {
    set k | k in z && HitTxt(k, z[k])
  }

  /** What the script makes of an rrset, unless writing it fails. */
  function Image(k: Key, r: ValueSet, src: string, dst: string): ValueSet {
    if HitA(k, r, src) then NewA(src, dst)(r)
    else if HitTxt(k, r) then NewTxt(dst)(r)
    else r
  }

  function Repointed(z: Zone, src: string, dst: string, fails: set<Key>): Zone {
    map k | k in z :: if k in fails then z[k] else Image(k, z[k], src, dst)
  }

  /** Names in the zone, the only ones it can hold. */
  predicate InZone(name: string, zone: string) {
    name == zone || (HasSuffix(name, "." + zone) && |name| > |zone| + 1 && name != "@." + zone)
  }

  predicate ZoneOk(z: Zone, zone: string) {
    && zone != "" && zone[|zone| - 1] != '.'
    && forall k <- z :: InZone(k.name, zone)
  }

  /** The script's to_relative undoes the name pdnsutil prints, and pdnsutil completes it again. */
  lemma ToRelativeInverse(name: string, zone: string, dot: bool)
    requires zone != "" && zone[|zone| - 1] != '.' && InZone(name, zone)
    ensures ZoneRecords.Absolute(ToRelative(name + if dot then "." else "", zone), zone, false) == name
  {
    hide TrimSuffix;
    LastChar(name, zone);
    ZoneRecords.FinalDot(name, dot);
    if name != zone {
      SuffixSplits(name, "." + zone);
      var rel := TrimSuffix(name, "." + zone);
      assert rel + ("." + zone) == rel + "." + zone;
      assert rel + "." + zone + "" == rel + "." + zone;
    }
  }

  lemma SuffixSplits(s: string, suffix: string)
    requires HasSuffix(s, suffix)
    ensures TrimSuffix(s, suffix) + suffix == s
  {
  }

  lemma LastChar(name: string, zone: string)
    requires zone != "" && InZone(name, zone)
    ensures name != "" && name[|name| - 1] == zone[|zone| - 1]
  {
    var suffix := "." + zone;
    if name != zone {
      assert name[|name| - |suffix|..] == suffix;
      assert name[|name| - |suffix|..][|suffix| - 1] == suffix[|suffix| - 1];
    }
  }

  function ToRelative(fqdn: string, zone: string): string {
    ZoneRecords.Relative(TrimSuffix(fqdn, "."), zone)
  }

  /** `m` with the values of some keys changed. */
  function Changed<K, V>(m: map<K, V>, f: V -> V, keys: set<K>): map<K, V> {
    map k | k in m :: if k in keys then f(m[k]) else m[k]
  }

  lemma ChangedNone<K, V>(m: map<K, V>, f: V -> V)
    ensures Changed(m, f, {}) == m
  {
  }

  lemma ChangedMore<K, V>(m: map<K, V>, f: V -> V, keys: set<K>, k: K)
    requires k in m && k !in keys
    ensures k in Changed(m, f, keys) && Changed(m, f, keys)[k] == m[k]
    ensures Changed(m, f, keys + {k}) == Changed(m, f, keys)[k := f(m[k])]
  {
  }

  class Server {
    var rrsets: Zone

    constructor (z: Zone)
      ensures rrsets == z
    {
      rrsets := z;
    }

    /** `pdnsutil replace-rrset` with a zone-relative name. */
    method ReplaceRrset(zone: string, rel: string, kind: string, r: ValueSet, fails: set<Key>) returns (ok: bool)
      modifies this
      ensures var k := ZoneRecords.Key(ZoneRecords.Absolute(rel, zone, false), kind);
              (ok <==> k !in fails) && rrsets == if ok then old(rrsets)[k := r] else old(rrsets)
    {
      var k := ZoneRecords.Key(ZoneRecords.Absolute(rel, zone, false), kind);
      ok := k !in fails;
      if ok {
        rrsets := rrsets[k := r];
      }
    }

    /** Replaces the rrsets `keys` one at a time, in any order, by their images under `f`. */
    method ReplaceEach(zone: string, keys: set<Key>, f: ValueSet -> ValueSet, fails: set<Key>,
                       dot: bool) returns (changed: bool)
      requires ZoneOk(rrsets, zone) && keys <= rrsets.Keys
      modifies this
      ensures rrsets == Changed(old(rrsets), f, keys - fails)
      ensures changed <==> keys - fails != {}
    {
      hide ZoneOk, Changed, InZone, ToRelative;
      ghost var was := rrsets;
      ghost var done: set<Key> := {};
      var todo := keys;
      changed := false;
      ChangedNone(was, f);
      while todo != {}
        invariant todo <= keys && done == keys - todo - fails
        invariant rrsets == Changed(was, f, done)
        invariant changed <==> done != {}
        decreases |todo|
      {
        var k :| k in todo;
        NameOk(was, zone, k);
        ToRelativeInverse(k.name, zone, dot);
        TakenOut(keys, todo, fails, k);
        ChangedKeys(was, f, done);
        ChangedMore(was, f, done, k);
        var fqdn := k.name + if dot then "." else "";
        var ok := ReplaceRrset(zone, ToRelative(fqdn, zone), k.kind, f(rrsets[k]), fails);
        if ok {
          changed, done := true, done + {k};
        }
        todo := todo - {k};
      }
      assert keys - {} - fails == keys - fails;
    }

    /** `dot` says whether listings print names with a final dot; `fails` are the rrsets whose replacement fails. */
    method RepointZone(zone: string, src: string, dst: string, fails: set<Key>, dot: bool) returns (changed: bool)
      requires ZoneOk(rrsets, zone)
      modifies this
      ensures rrsets == Repointed(old(rrsets), src, dst, fails)
      ensures changed <==> exists k :: && k in old(rrsets) && k !in fails
                                       && (HitA(k, old(rrsets)[k], src) || HitTxt(k, old(rrsets)[k]))
    {
      hide HitA, HitTxt, NewA, NewTxt, InZone, Changed;
      ghost var was := rrsets;
      var hitsA := HitsA(rrsets, src);
      var a := ReplaceEach(zone, hitsA, NewA(src, dst), fails, dot);
      AfterA(was, zone, src, dst, fails);
      var hitsTxt := HitsTxt(rrsets);
      var t := ReplaceEach(zone, hitsTxt, NewTxt(dst), fails, dot);
      AfterTxt(was, src, dst, fails);
      assert a <==> exists k :: k in hitsA && k !in fails by {
        assert forall k :: k in hitsA - fails <==> k in hitsA && k !in fails;
        Inhabited(hitsA - fails);
      }
      assert t <==> exists k :: k in hitsTxt && k !in fails by {
        assert forall k :: k in hitsTxt - fails <==> k in hitsTxt && k !in fails;
        Inhabited(hitsTxt - fails);
      }
      return a || t;
    }
  }

  lemma TakenOut<T>(keys: set<T>, todo: set<T>, fails: set<T>, k: T)
    requires k in todo && todo <= keys
    ensures k !in keys - todo - fails
    ensures keys - (todo - {k}) - fails == if k in fails then keys - todo - fails else keys - todo - fails + {k}
  {
  }

  lemma Inhabited<T>(s: set<T>)
    ensures s != {} <==> exists x :: x in s
  {
  }

  lemma NameOk(z: Zone, zone: string, k: Key)
    requires ZoneOk(z, zone) && k in z
    ensures zone != "" && zone[|zone| - 1] != '.' && InZone(k.name, zone)
  {
  }

  lemma ChangedKeys<K, V>(m: map<K, V>, f: V -> V, keys: set<K>)
    ensures Changed(m, f, keys).Keys == m.Keys
    ensures forall k <- m :: k !in keys ==> Changed(m, f, keys)[k] == m[k]
  {
  }

  /** The address swaps leave the TXT rrsets, and which of them are hit, alone. */
  lemma AfterA(z: Zone, zone: string, src: string, dst: string, fails: set<Key>)
    requires ZoneOk(z, zone)
    ensures var mid := Changed(z, NewA(src, dst), HitsA(z, src) - fails);
            ZoneOk(mid, zone) && HitsTxt(mid) == HitsTxt(z)
  {
    hide InZone, NewA, Contains, ListingLine;
    var mid := Changed(z, NewA(src, dst), HitsA(z, src) - fails);
    assert mid.Keys == z.Keys;
    forall k | k in z
      ensures HitTxt(k, mid[k]) == HitTxt(k, z[k])
    {
    }
  }

  lemma AfterTxt(z: Zone, src: string, dst: string, fails: set<Key>)
    ensures var mid := Changed(z, NewA(src, dst), HitsA(z, src) - fails);
            Changed(mid, NewTxt(dst), HitsTxt(z) - fails) == Repointed(z, src, dst, fails)
  {
    hide NewA, NewTxt, Contains, ListingLine;
    var mid := Changed(z, NewA(src, dst), HitsA(z, src) - fails);
    var end := Changed(mid, NewTxt(dst), HitsTxt(z) - fails);
    forall k | k in z
      ensures end[k] == Repointed(z, src, dst, fails)[k]
    {
    }
  }

  // ---- what the script preserves ---------------------------------------

  /** Every rrset keeps its TTL; only A and TXT rrsets change; an A rrset without the source address and a TXT rrset
      with no spf1 in its name or values stay as they are. */
  lemma OthersUntouched(z: Zone, src: string, dst: string, fails: set<Key>, k: Key)
    requires k in z && !Contains(z[k].ttl, "spf1")
    ensures k in Repointed(z, src, dst, fails) && Repointed(z, src, dst, fails)[k].ttl == z[k].ttl
    ensures k in fails || k.kind !in {"A", "TXT"} ==> Repointed(z, src, dst, fails)[k] == z[k]
    ensures k.kind == "A" && src !in z[k].values ==> Repointed(z, src, dst, fails)[k] == z[k]
    ensures k.kind == "TXT" && !Contains(k.name, "spf1") && (forall v <- z[k].values :: !Contains(v, "spf1"))
            ==> Repointed(z, src, dst, fails)[k] == z[k]
  {
    hide Contains, ListingLine;
    if k.kind == "TXT" {
      forall v <- z[k].values
        ensures Contains(ListingLine(k, z[k].ttl, v), "spf1") <==> Contains(k.name, "spf1") || Contains(v, "spf1")
      {
        LineContains(k, z[k].ttl, v, "spf1");
      }
    }
  }

  /** A word without a tab occurs on a listing line when it occurs in one of its columns. */
  lemma LineContains(k: Key, ttl: string, v: string, word: string)
    requires word == "spf1" && k.kind == "TXT"
    ensures Contains(ListingLine(k, ttl, v), word)
            <==> Contains(k.name, word) || Contains(ttl, word) || Contains(v, word)
  {
    hide Contains;
    ContainsAcross(k.kind, '\t', v, word);
    ContainsAcross("IN", '\t', k.kind + "\t" + v, word);
    ContainsAcross(ttl, '\t', "IN" + "\t" + (k.kind + "\t" + v), word);
    ContainsAcross(k.name, '\t', ttl + "\t" + ("IN" + "\t" + (k.kind + "\t" + v)), word);
    ContainsFits(k.kind, word);
    ContainsFits("IN", word);
  }

  lemma ContainsFits(s: string, word: string)
    requires |s| < |word|
    ensures !Contains(s, word)
  {
    IndexFits(s, word);
  }

  lemma ContainsAcross(a: string, c: char, b: string, word: string)
    requires word != "" && c !in word
    ensures Contains(a + [c] + b, word) <==> Contains(a, word) || Contains(b, word)
  {
    var s := a + [c] + b;
    IndexFirst(a, word);
    IndexFirst(b, word);
    IndexFirst(s, word);
    if Contains(a, word) {
      ContainsInMiddle("", a, [c] + b, word);
      assert "" + a + ([c] + b) == s;
    }
    if Contains(b, word) {
      ContainsInMiddle(a + [c], b, "", word);
      assert a + [c] + b + "" == s;
    }
    if Contains(s, word) {
      OneSide(a, c, b, word, Index(s, word));
    }
  }

  lemma OneSide(a: string, c: char, b: string, word: string, i: nat)
    requires word != "" && c !in word && i <= |a + [c] + b| && word <= (a + [c] + b)[i..]
    ensures Contains(a, word) || Contains(b, word)
  {
    var s := a + [c] + b;
    if i > |a| {
      assert s[i..] == b[i - |a| - 1..];
      ContainsAt(b, word, i - |a| - 1);
    } else {
      forall k | 0 <= k < |word|
        ensures word[k] == s[i + k] && word[k] != c
      {
      }
      assert i + |word| <= |a| by {
        assert s[|a|] == c;
      }
      assert s[i..][..|word|] == a[i..][..|word|];
      ContainsAt(a, word, i);
    }
  }

  /** A TXT rrset is rewritten exactly when spf1 stands in its name or in one of its values. */
  lemma HitTxtIff(k: Key, r: ValueSet)
    requires k.kind == "TXT" && !Contains(r.ttl, "spf1")
    ensures HitTxt(k, r) <==> exists v <- r.values :: Contains(k.name, "spf1") || Contains(v, "spf1")
  {
    hide Contains, ListingLine;
    forall v <- r.values
      ensures Contains(ListingLine(k, r.ttl, v), "spf1") <==> Contains(k.name, "spf1") || Contains(v, "spf1")
    {
      LineContains(k, r.ttl, v, "spf1");
    }
  }

  /** A quoted policy naming the source, spelled out, before and after: the term's end is the space or the quote. */
  lemma PolicyRepointed(z: Zone, src: string, dst: string, fails: set<Key>, k: Key, rest: string)
    requires k in z && k.kind == "TXT" && k !in fails && !Contains(z[k].ttl, "spf1")
    requires Token(src) && Free(src, STOP) && IsTarget(dst) && rest in {"\"", " ~all\""}
    requires "\"v=spf1 ip4:" + src + rest in z[k].values
    ensures "\"v=spf1 ip4:" + dst + rest in Repointed(z, src, dst, fails)[k].values
  {
    hide Contains, RewriteTxt, HitTxt, Gsub;
    var v := "\"v=spf1 ip4:" + src + rest;
    PolicyMentions(src, rest);
    assert Contains(v, "spf1");
    HitTxtIff(k, z[k]);
    KindOfHit(k, z[k]);
    PolicyRewritten(src, dst, rest);
    assert RewriteTxt(v, dst) in NewTxt(dst)(z[k]).values;
  }

  lemma PolicyMentions(src: string, rest: string)
    ensures Contains("\"v=spf1 ip4:" + src + rest, "spf1")
    ensures Contains("\"v=spf1 ip4:" + src + rest, SPF)
  {
    hide Contains;
    var v := "\"v=spf1 ip4:" + src + rest;
    var head := "\"v=spf1 ip4:";
    assert head[3..7] == "spf1" && head[1..7] == SPF;
    assert v[3..][..4] == head[3..7] && v[1..][..6] == head[1..7];
    ContainsAt(v, "spf1", 3);
    ContainsAt(v, SPF, 1);
  }

  lemma PolicyRewritten(src: string, dst: string, rest: string)
    requires Token(src) && Free(src, STOP) && IsTarget(dst) && rest in {"\"", " ~all\""}
    ensures RewriteTxt("\"v=spf1 ip4:" + src + rest, dst) == "\"v=spf1 ip4:" + dst + rest
  {
    hide Contains, Gsub, SingleSpaced;
    var v := "\"v=spf1 ip4:" + src + rest;
    PolicyMentions(src, rest);
    PolicySpaced(src, rest);
    RewritePolicy(v, dst);
    PolicyGsub(src, dst, rest);
  }

  lemma PolicySpaced(src: string, rest: string)
    requires Token(src) && rest in {"\"", " ~all\""}
    ensures SingleSpaced("\"v=spf1 ip4:" + src + rest) == "\"v=spf1 ip4:" + src + rest
  {
    hide Fields;
    var first, term := "\"v=spf1", "ip4:" + src;
    assert Token(first) && Token(term);
    assert "\"v=spf1 ip4:" == first + " " + "ip4:";
    if rest == "\"" {
      var tokens := [first, term + "\""];
      assert Token(term + "\"") && tokens[1..] == [term + "\""];
      FieldsJoin("", tokens, "");
      assert "" + Join(tokens, " ") + "" == "\"v=spf1 ip4:" + src + rest;
    } else {
      var tokens := [first, term, "~all\""];
      assert Token("~all\"") && tokens[1..] == [term, "~all\""] && tokens[1..][1..] == ["~all\""];
      assert " ~all\"" == " " + "~all\"";
      assert Join(tokens[1..], " ") == term + " " + "~all\"";
      assert Join(tokens, " ") == first + " " + (term + " " + "~all\"");
      FieldsJoin("", tokens, "");
      assert "" + Join(tokens, " ") + "" == "\"v=spf1 ip4:" + src + rest;
    }
  }

  lemma PolicyGsub(src: string, dst: string, rest: string)
    requires src != "" && Free(src, STOP) && IsTarget(dst) && rest in {"\"", " ~all\""}
    ensures Gsub("\"v=spf1 ip4:" + src + rest, MARK, dst) == "\"v=spf1 ip4:" + dst + rest
  {
    hide Gsub;
    MarkOk();
    var first := "\"v=spf1";
    var e, after := rest[0], rest[1..];
    assert "\"v=spf1 ip4:" == first + [' '] + MARK && rest == [e] + after && e in STOP;
    assert "\"v=spf1 ip4:" + src + rest == first + [' '] + (MARK + src) + [e] + after;
    TermInPlace(first, ' ', src, e, after, MARK, dst);
    Unmarked(first, dst);
    Unmarked(after, dst);
    assert first + [' '] + (MARK + dst) + [e] + after == "\"v=spf1 ip4:" + dst + rest;
  }

  lemma Unmarked(s: string, dst: string)
    requires s in {"\"v=spf1", "", "~all\""}
    ensures Gsub(s, MARK, dst) == s
  {
    hide Gsub;
    MarkOk();
    if s == "" {
      GsubEmpty(MARK, dst);
    } else if s == "\"v=spf1" {
      GsubSep("", '"', "v=spf1", MARK, dst);
      NoMark("v=spf1", MARK, dst);
      GsubEmpty(MARK, dst);
      assert "" + ['"'] + "v=spf1" == s;
    } else {
      GsubSep("~all", '"', "", MARK, dst);
      NoMark("~all", MARK, dst);
      GsubEmpty(MARK, dst);
      assert "~all" + ['"'] + "" == s;
    }
  }

  /** In an A rrset the source address becomes the destination and every third address stays: the new set is the image
      of the old one. */
  lemma AddressesSwapped(z: Zone, src: string, dst: string, fails: set<Key>, k: Key, v: string)
    requires k in z && k.kind == "A" && k !in fails
    ensures var now := Repointed(z, src, dst, fails)[k].values;
            && (v !in {src, dst} ==> (v in now <==> v in z[k].values))
            && (src != dst ==> src !in now)
            && (dst in now <==> src in z[k].values || dst in z[k].values)
  {
    if src in z[k].values {
      assert Swap(src, src, dst) == dst;
      assert Swap(v, src, dst) == v || v == src;
    }
  }

  /** Beside an SPF policy, another TXT value survives if and only if its words are single-spaced. */
  lemma SiblingSurvivesIff(z: Zone, src: string, dst: string, fails: set<Key>, k: Key, v: string)
    requires k in z && HitTxt(k, z[k]) && k !in fails && IsTarget(dst)
    requires v in z[k].values && !Contains(SingleSpaced(v), SPF)
    ensures v in Repointed(z, src, dst, fails)[k].values <==> SingleSpaced(v) == v
  {
    hide SingleSpaced, Contains, Gsub, HitTxt, IsTarget;
    var now := Repointed(z, src, dst, fails)[k].values;
    KindOfHit(k, z[k]);
    assert forall u :: u in now <==> exists w :: w in z[k].values && u == RewriteTxt(w, dst);
    assert RewriteTxt(v, dst) == SingleSpaced(v);
    if v in now {
      var w :| w in z[k].values && v == RewriteTxt(w, dst);
      RewriteTxtTwice(w, dst);
    }
  }

  lemma KindOfHit(k: Key, r: ValueSet)
    requires HitTxt(k, r)
    ensures k.kind == "TXT" && k.kind != "A"
  {
  }

  /** In an SPF policy every ip4 term becomes the destination's, whatever its address, its qualifier and its place. */
  lemma EveryTermRepointed(v: string, dst: string)
    requires IsTarget(dst) && Contains(SingleSpaced(v), SPF)
    ensures |Runs(RewriteTxt(v, dst), MARK)| == |Runs(SingleSpaced(v), MARK)|
    ensures forall r <- Runs(RewriteTxt(v, dst), MARK) :: r == dst
  {
    hide Gsub, Runs, SingleSpaced, Contains, IsMark, Free;
    MarkOk();
    RunsRewritten(SingleSpaced(v), MARK, dst);
  }

  /** In an SPF policy third-party terms survive, so that only the source's are rewritten, if and only if there are
      none. */
  lemma ThirdPartyTermsSurviveIff(v: string, src: string, dst: string)
    requires IsTarget(dst) && Contains(SingleSpaced(v), SPF)
    ensures RewriteTxt(v, dst) == GsubSource(SingleSpaced(v), MARK, src, dst)
            <==> forall r <- Runs(SingleSpaced(v), MARK) :: r in {src, dst}
  {
    hide Gsub, GsubSource, Runs, SingleSpaced, Contains, IsMark, Free;
    MarkOk();
    SourceOnlyIff(SingleSpaced(v), MARK, src, dst);
  }

  const POLICY := "v=spf1 ip4:8.8.8.8 ~all"

  /** A policy that does not even name the source loses its third-party address. */
  lemma ThirdPartyTermLost(dst: string)
    requires IsTarget(dst)
    ensures RewriteTxt(POLICY, dst) == SPF + [' '] + (MARK + dst) + [' '] + "~all"
  {
    hide *;
    SpacedPolicy();
    MarkOk();
    PolicyText();
    RewritePolicy(POLICY, dst);
    TermInPlace(SPF, ' ', "8.8.8.8", ' ', "~all", MARK, dst);
    NoMark(SPF, MARK, dst);
    NoMark("~all", MARK, dst);
  }

  lemma RewritePolicy(v: string, dst: string)
    requires SingleSpaced(v) == v && Contains(v, SPF)
    ensures RewriteTxt(v, dst) == Gsub(v, MARK, dst)
  {
  }

  /** A term between separators is replaced where it stands. */
  lemma TermInPlace(before: string, c: char, addr: string, e: char, after: string, mark: string, dst: string)
    requires IsMark(mark) && c in STOP && e in STOP && addr != "" && Free(addr, STOP)
    ensures Gsub(before + [c] + (mark + addr) + [e] + after, mark, dst)
         == Gsub(before, mark, dst) + [c] + (mark + dst) + [e] + Gsub(after, mark, dst)
  {
    hide Gsub, IsMark;
    TermRepointed(addr, mark, dst);
    GsubSep(before + [c] + (mark + addr), e, after, mark, dst);
    GsubSep(before, c, mark + addr, mark, dst);
  }

  lemma PolicyText()
    ensures POLICY == SPF + [' '] + (MARK + "8.8.8.8") + [' '] + "~all"
    ensures Contains(POLICY, SPF)
    ensures ' ' in STOP && "8.8.8.8" != "" && Free("8.8.8.8", STOP)
    ensures Free(SPF, STOP) && Free("~all", STOP) && MARK != "" && MARK[0] !in SPF && MARK[0] !in "~all"
  {
    ContainsAt(POLICY, SPF, 0);
  }

  lemma SpacedPolicy()
    ensures SingleSpaced(POLICY) == POLICY
  {
    hide Fields;
    var tokens := [SPF, "ip4:8.8.8.8", "~all"];
    assert forall t <- tokens :: Token(t);
    FieldsJoin("", tokens, "");
    assert tokens[1..] == ["ip4:8.8.8.8", "~all"] && tokens[1..][1..] == ["~all"];
    assert Join(tokens[1..], " ") == "ip4:8.8.8.8 ~all";
    assert "" + Join(tokens, " ") + "" == POLICY;
  }

  /** A run without the first character of the mark is left alone. */
  lemma NoMark(s: string, mark: string, dst: string)
    requires IsMark(mark) && Free(s, STOP) && mark[0] !in s
    ensures Gsub(s, mark, dst) == s
  {
    hide Gsub;
    GsubSegment(s, mark, dst);
    IndexFirst(s, mark);
  }

  lemma TermRepointed(addr: string, mark: string, dst: string)
    requires IsMark(mark) && addr != "" && Free(addr, STOP)
    ensures Gsub(mark + addr, mark, dst) == mark + dst
  {
    var seg := mark + addr;
    assert seg[..|mark|] == mark;
    GsubSegment(seg, mark, dst);
  }

  /** A second run, with any failures, leaves the zone as the first one left it. */
  lemma SecondRunSame(z: Zone, src: string, dst: string, fails: set<Key>)
    requires IsTarget(dst) && src != dst
    ensures Repointed(Repointed(z, src, dst, {}), src, dst, fails) == Repointed(z, src, dst, {})
  {
    hide RewriteTxt, Contains, IsTarget, ListingLine;
    var once := Repointed(z, src, dst, {});
    forall k | k in z
      ensures Image(k, once[k], src, dst) == once[k]
    {
      ImageTwice(k, z[k], src, dst);
    }
  }

  lemma ImageTwice(k: Key, r: ValueSet, src: string, dst: string)
    requires IsTarget(dst) && src != dst
    ensures Image(k, Image(k, r, src, dst), src, dst) == Image(k, r, src, dst)
  {
    hide RewriteTxt, Contains, IsTarget, ListingLine;
    var once := Image(k, r, src, dst);
    if HitA(k, r, src) {
      assert src !in once.values;
    } else if HitTxt(k, r) {
      forall v <- once.values
        ensures RewriteTxt(v, dst) == v
      {
        var u :| u in r.values && v == RewriteTxt(u, dst);
        RewriteTxtTwice(u, dst);
      }
      assert NewTxt(dst)(once).values == once.values;
    }
  }
}
