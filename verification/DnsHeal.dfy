/** `bzpanel heal-dns`: prunes zones PowerDNS does not serve and backfills the records of every subdomain. */
module DnsHeal {
  import opened Text
  import opened Options
  import opened Lists

  // ---- the apex-wins parent lookup -------------------------------------

  /** The last position at most `i`, and at least 1, from which the labels spell a registered zone. */
  function ParentAt(labels: seq<string>, registered: set<string>, i: int): (r: Option<nat>)
    requires i <= |labels|
    ensures r.Some? ==> 1 <= r.value <= i && Join(labels[r.value..], ".") in registered
    decreases if i < 0 then 0 else i
  {
    if i < 1 then None
    else if Join(labels[i..], ".") in registered then Some(i)
    else ParentAt(labels, registered, i - 1)
  }

  /** The walk over the suffixes with at least two labels, the shortest first. */
  method FindParent(domain: string, registered: set<string>) returns (parent: string, subPart: string, found: bool)
    ensures var labels := Split(domain, '.');
            && |labels| >= 1
            && match ParentAt(labels, registered, |labels| - 2)
               case None => !found
               case Some(i) => found && parent == Join(labels[i..], ".") && subPart == Join(labels[..i], ".")
  {
    hide Join, Split;
    var labels := Split(domain, '.');
    parent, subPart, found := "", "", false;
    var i := |labels| - 2;
    while i >= 1
      invariant i <= |labels| - 2
      invariant ParentAt(labels, registered, |labels| - 2) == ParentAt(labels, registered, i)
    {
      var cand := Join(labels[i..], ".");
      if cand in registered {
        return cand, Join(labels[..i], "."), true;
      }
      i := i - 1;
    }
  }

  /** `p` is a registered proper suffix of `d`, cut at a dot, with at least two labels. */
  ghost predicate IsParent(d: string, registered: set<string>, p: string) {
    p in registered && |Split(p, '.')| >= 2 && exists sub :: d == sub + ['.'] + p
  }

  lemma {:induction false} ParentAtLast(labels: seq<string>, registered: set<string>, i: int, j: nat)
    requires i <= |labels| && 1 <= j <= i && Join(labels[j..], ".") in registered
    ensures ParentAt(labels, registered, i).Some? && ParentAt(labels, registered, i).value >= j
  {
    hide Join;
    if j < i && Join(labels[i..], ".") !in registered {
      ParentAtLast(labels, registered, i - 1, j);
    }
  }

  /** Cutting a domain between two labels. */
  lemma CutAt(d: string, i: nat)
    requires 1 <= i < |Split(d, '.')|
    ensures var labels := Split(d, '.');
            var sub, p := Join(labels[..i], "."), Join(labels[i..], ".");
            d == sub + ['.'] + p && Split(p, '.') == labels[i..]
  {
    var labels := Split(d, '.');
    JoinSplit(d, '.');
    SplitFree(d, '.');
    assert labels == labels[..i] + labels[i..];
    JoinConcat(labels[..i], labels[i..], ".");
    SplitJoin(labels[i..], '.');
  }

  /** The walk finds the registered parent with the fewest labels, and nothing exactly when there is no parent. */
  lemma ApexWins(d: string, registered: set<string>)
    ensures var labels := Split(d, '.');
            match ParentAt(labels, registered, |labels| - 2)
            case None => forall p :: !IsParent(d, registered, p)
            case Some(i) =>
              var sub, parent := Join(labels[..i], "."), Join(labels[i..], ".");
              && d == sub + ['.'] + parent && IsParent(d, registered, parent)
              && forall p :: IsParent(d, registered, p) ==> |Split(parent, '.')| <= |Split(p, '.')|
  {
    hide Join, Split, ParentAt, IsParent;
    var labels := Split(d, '.');
    var r := ParentAt(labels, registered, |labels| - 2);
    if r.Some? {
      CutAt(d, r.value);
      FoundParent(d, registered, Join(labels[..r.value], "."), Join(labels[r.value..], "."));
    }
    forall p | IsParent(d, registered, p)
      ensures r.Some? && |labels| - r.value <= |Split(p, '.')|
    {
      Candidate(d, registered, p);
    }
  }

  lemma FoundParent(d: string, registered: set<string>, sub: string, p: string)
    requires p in registered && |Split(p, '.')| >= 2 && d == sub + ['.'] + p
    ensures IsParent(d, registered, p)
  {
  }

  lemma Candidate(d: string, registered: set<string>, p: string)
    requires IsParent(d, registered, p)
    ensures var labels := Split(d, '.');
            var r := ParentAt(labels, registered, |labels| - 2);
            r.Some? && |labels| - r.value <= |Split(p, '.')|
  {
    hide Join, Split, ParentAt;
    var labels, rest := Split(d, '.'), Split(p, '.');
    var sub :| d == sub + ['.'] + p;
    SplitConcat(sub, p, '.');
    var j := |Split(sub, '.')|;
    assert labels[j..] == rest;
    JoinSplit(p, '.');
    ParentAtLast(labels, registered, |labels| - 2, j);
  }

  // ---- what a domain should have ---------------------------------------

  datatype Kind = A | CNAME | Other(name: string)

  datatype Zone = Zone(id: nat, serverIP: string)

  datatype Row = Row(zone: nat, kind: Kind, name: string, value: string, ttl: nat)

  datatype Key = Key(zone: nat, kind: Kind, name: string)

  /** A row, and the zone it belongs to as PowerDNS names it. */
  datatype Want = Want(parent: string, row: Row)

  datatype RrsetKey = RrsetKey(zone: string, kind: Kind, name: string)

  datatype Rrset = Rrset(ttl: nat, values: seq<string>)

  const TTL: nat := 3600

  function KeyOf(r: Row): Key {
    Key(r.zone, r.kind, r.name)
  }

  function RrsetKeyOf(w: Want): RrsetKey {
    RrsetKey(w.parent, w.row.kind, w.row.name)
  }

  function Keys(records: seq<Row>): set<Key> {
    set r <- records :: KeyOf(r)
  }

  function WantsUnder(parent: string, sub: string, z: Zone, d: string): seq<Want> {
    [Want(parent, Row(z.id, A, sub, z.serverIP, TTL)),
     Want(parent, Row(z.id, CNAME, "www." + sub, d + ".", TTL)),
     Want(parent, Row(z.id, CNAME, "cname." + sub, d + ".", TTL))]
  }

  /** The three records of a domain that has a parent zone. */
  function Wants(zones: map<string, Zone>, d: string): seq<Want> {
    var labels := Split(d, '.');
    match ParentAt(labels, zones.Keys, |labels| - 2)
    case None => []
    case Some(i) => WantsUnder(Join(labels[i..], "."), Join(labels[..i], "."), zones[Join(labels[i..], ".")], d)
  }

  function Wanter(zones: map<string, Zone>): string -> seq<Want> {
    d => Wants(zones, d)
  }

  predicate DistinctIds(zones: map<string, Zone>) {
    forall d, e :: d in zones && e in zones && zones[d].id == zones[e].id ==> d == e
  }

  predicate Distinct(domains: seq<string>) {
    forall i, j :: 0 <= i < j < |domains| ==> domains[i] != domains[j]
  }

  lemma NamesApart(s: string, t: string)
    ensures "www." + s != "cname." + t
    ensures "www." + s == "www." + t ==> s == t
    ensures "cname." + s == "cname." + t ==> s == t
  {
    var a, b := "www.", "cname.";
    assert (a + s)[0] == 'w' && (b + t)[0] == 'c';
    Cancel(a, s, t);
    Cancel(b, s, t);
  }

  lemma Cancel(a: string, s: string, t: string)
    ensures a + s == a + t ==> s == t
  {
    assert (a + s)[|a|..] == s && (a + t)[|a|..] == t;
  }

  lemma WantsAre(zones: map<string, Zone>, d: string) returns (parent: string, sub: string)
    ensures Wants(zones, d) == [] || (d == sub + ['.'] + parent && parent in zones
                                      && Wants(zones, d) == WantsUnder(parent, sub, zones[parent], d))
  {
    hide Join, Split, ParentAt, IsParent;
    var labels := Split(d, '.');
    ApexWins(d, zones.Keys);
    parent, sub := "", "";
    match ParentAt(labels, zones.Keys, |labels| - 2)
    case None =>
    case Some(i) => parent, sub := Join(labels[i..], "."), Join(labels[..i], ".");
  }

  lemma UnderApart(p: string, q: string, s: string, t: string, y: Zone, z: Zone, d: string, e: string, v: Want, w: Want)
    requires v in WantsUnder(p, s, y, d) && w in WantsUnder(q, t, z, e) && KeyOf(v.row) == KeyOf(w.row)
    ensures y.id == z.id && s == t && v.parent == p && w.parent == q
    ensures y == z && d == e && p == q ==> v == w
  {
    NamesApart(s, t);
    NamesApart(t, s);
  }

  /** Zone, type and name of a wanted record determine the domain it is wanted for. */
  lemma WantedOnce(zones: map<string, Zone>, d: string, e: string, v: Want, w: Want)
    requires DistinctIds(zones)
    requires v in Wants(zones, d) && w in Wants(zones, e)
    requires KeyOf(v.row) == KeyOf(w.row) || RrsetKeyOf(v) == RrsetKeyOf(w)
    ensures d == e && v == w
  {
    hide Wants, WantsUnder;
    var p, s := WantsAre(zones, d);
    var q, t := WantsAre(zones, e);
    WantZone(p, s, zones[p], d, v);
    WantZone(q, t, zones[q], e, w);
    UnderApart(p, q, s, t, zones[p], zones[q], d, e, v, w);
  }

  lemma WantZone(p: string, s: string, z: Zone, d: string, w: Want)
    requires w in WantsUnder(p, s, z, d)
    ensures w.parent == p && w.row.zone == z.id
  {
  }

  /** A sweep wants an A and a CNAME at one name, which DNS forbids, exactly for a domain row that is www. or cname. of
      another under the same parent. */
  lemma ConflictIff(zones: map<string, Zone>, d: string, e: string, p: string, s: string, q: string, t: string)
    requires d == s + ['.'] + p && p in zones && Wants(zones, d) == WantsUnder(p, s, zones[p], d)
    requires e == t + ['.'] + q && q in zones && Wants(zones, e) == WantsUnder(q, t, zones[q], e)
    ensures (exists v, w :: v in Wants(zones, d) && w in Wants(zones, e) && v.row.kind == A && w.row.kind == CNAME
                            && v.parent == w.parent && v.row.name == w.row.name)
            <==> p == q && d in {"www." + e, "cname." + e}
  {
    hide Wants;
    SameSub("www.", s, t, p);
    SameSub("cname.", s, t, p);
    var a, www, cname := Wants(zones, d)[0], Wants(zones, e)[1], Wants(zones, e)[2];
    assert a in Wants(zones, d) && www in Wants(zones, e) && cname in Wants(zones, e);
    if p == q && d in {"www." + e, "cname." + e} {
      assert a.row.name in {www.row.name, cname.row.name};
    }
  }

  lemma SameSub(front: string, s: string, t: string, p: string)
    ensures s + ['.'] + p == front + (t + ['.'] + p) <==> s == front + t
  {
    var end := ['.'] + p;
    assert s + ['.'] + p == s + end && front + (t + ['.'] + p) == front + t + end;
    assert s + end == front + t + end ==> s == front + t by {
      assert (s + end)[..|s|] == s && (front + t + end)[..|front + t|] == front + t;
    }
  }

  // ---- filling in what is missing --------------------------------------

  /** What fails. Reported: the insertion of a row and the write of an rrset, named by row. Ignored by the code:
      counting the rows with a key, which then reads as none, and deleting the rows or the row of a zone, named by
      its id. */
  datatype Faults = Faults(noInsert: set<Key>, noWrite: set<Key>, noCount: set<Key>, noPurge: set<nat>,
                           noDrop: set<nat>)

  const NO_FAULTS := Faults({}, {}, {}, {}, {})

  /** The failures nothing reports. */
  function Silent(f: Faults): Faults {
    f.(noInsert := {}, noWrite := {})
  }

  /** The keys a sweep finds rows for. */
  function Seen(records: seq<Row>, f: Faults): set<Key> {
    Keys(records) - f.noCount
  }

  /** The row inserted for `w` when the keys `present` exist already. */
  function Inserted(present: set<Key>, f: Faults, w: Want): seq<Row> {
    if KeyOf(w.row) in present + f.noInsert then [] else [w.row]
  }

  /** The rrset written for `w`. */
  function Written(present: set<Key>, f: Faults, w: Want): map<RrsetKey, Rrset> {
    if KeyOf(w.row) in present + f.noInsert + f.noWrite then map[]
    else map[RrsetKeyOf(w) := Rrset(w.row.ttl, [w.row.value])]
  }

  function Inserter(present: set<Key>, f: Faults): Want -> seq<Row> {
    w => Inserted(present, f, w)
  }

  function Writer(present: set<Key>, f: Faults): Want -> map<RrsetKey, Rrset> {
    w => Written(present, f, w)
  }

  datatype Db = Db(zones: map<string, Zone>, records: seq<Row>, rrsets: map<RrsetKey, Rrset>)

  /** `db` after the wanted records missing from it have been added. */
  function Filled(db: Db, f: Faults, wants: seq<Want>): Db {
    db.(records := db.records + FlatMap(Inserter(Seen(db.records, f), f), wants),
        rrsets := db.rrsets + Merge(Writer(Seen(db.records, f), f), wants))
  }

  function Served(zones: map<string, Zone>, served: set<string>): map<string, Zone> {
    map d | d in zones && d in served :: zones[d]
  }

  function StaleIds(zones: map<string, Zone>, served: set<string>): set<nat> {
    set d | d in zones && d !in served :: zones[d].id
  }

  function Outside(records: seq<Row>, ids: set<nat>): seq<Row> {
    if records == [] then []
    else (if records[0].zone in ids then [] else [records[0]]) + Outside(records[1..], ids)
  }

  /** The zones of the table that stay in it: those served and those whose deletion fails. */
  function Remaining(zones: map<string, Zone>, served: set<string>, f: Faults): map<string, Zone> {
    map d | d in zones && (d in served || zones[d].id in f.noDrop) :: zones[d]
  }

  function Pruned(db: Db, served: set<string>, f: Faults): Db {
    db.(zones := Remaining(db.zones, served, f),
        records := Outside(db.records, StaleIds(db.zones, served) - f.noPurge))
  }

  function WithDefault(zones: map<string, Zone>, ip: string): map<string, Zone> {
    map d | d in zones :: if zones[d].serverIP == "" then zones[d].(serverIP := ip) else zones[d]
  }

  function AllWants(zones: map<string, Zone>, ip: string, domains: seq<string>): seq<Want> {
    FlatMap(Wanter(WithDefault(zones, ip)), domains)
  }

  /** What the whole sweep leaves, given the zones PowerDNS serves. */
  function Healed(db: Db, served: set<string>, ip: string, domains: seq<string>, f: Faults): Db {
    Filled(Pruned(db, served, f), f, AllWants(Served(db.zones, served), ip, domains))
  }

  /** No record wanted earlier in the sweep has the key of `w`. */
  predicate Fresh(w: Want, before: seq<Want>) {
    forall v <- before :: KeyOf(v.row) != KeyOf(w.row)
  }

  /** Because keys are wanted once, looking a key up in the table filled so far or in the original one is the same. */
  lemma FilledStep(db: Db, f: Faults, before: seq<Want>, w: Want)
    requires Fresh(w, before)
    ensures var now := Filled(db, f, before);
            && (KeyOf(w.row) in Seen(now.records, f) <==> KeyOf(w.row) in Seen(db.records, f))
            && Filled(db, f, before + [w]) == Filled(now, f, [w])
  {
    hide FlatMap, Merge;
    var present := Seen(db.records, f);
    var now := Filled(db, f, before);
    var added := FlatMap(Inserter(present, f), before);
    InsertedAre(present, f, before);
    assert forall r <- added :: KeyOf(r) != KeyOf(w.row);
    KeysConcat(db.records, added);
    FlatMapSnoc(Inserter(present, f), before, w);
    MergeSnoc(Writer(present, f), before, w);
    FilledOne(now, f, w);
    Concat3(db.records, added, Inserted(present, f, w));
    RegroupMaps(db.rrsets, Merge(Writer(present, f), before), Written(present, f, w));
  }

  lemma KeysConcat(a: seq<Row>, b: seq<Row>)
    ensures Keys(a + b) == Keys(a) + Keys(b)
  {
  }

  lemma FilledOne(db: Db, f: Faults, w: Want)
    ensures Filled(db, f, [w]).records == db.records + Inserted(Seen(db.records, f), f, w)
    ensures Filled(db, f, [w]).rrsets == db.rrsets + Written(Seen(db.records, f), f, w)
    ensures Filled(db, f, [w]).zones == db.zones
  {
    MergeOne(Writer(Seen(db.records, f), f), w);
    FlatMapSnoc(Inserter(Seen(db.records, f), f), [], w);
  }

  lemma InsertedAre(present: set<Key>, f: Faults, ws: seq<Want>)
    ensures forall r :: r in FlatMap(Inserter(present, f), ws)
                        <==> exists w :: w in ws && r == w.row && KeyOf(r) !in present + f.noInsert
  {
    forall r
      ensures r in FlatMap(Inserter(present, f), ws)
              <==> exists w :: w in ws && r == w.row && KeyOf(r) !in present + f.noInsert
    {
      FlatMapIn(Inserter(present, f), ws, r);
    }
  }

  /** The wants of a domain list without repetitions have distinct keys. */
  lemma NextFresh(zones: map<string, Zone>, domains: seq<string>, i: nat, k: nat)
    requires DistinctIds(zones) && Distinct(domains) && i < |domains| && k < |Wants(zones, domains[i])|
    ensures Fresh(Wants(zones, domains[i])[k], FlatMap(Wanter(zones), domains[..i]) + Wants(zones, domains[i])[..k])
  {
    hide Wants;
    var ws := Wants(zones, domains[i]);
    var before := FlatMap(Wanter(zones), domains[..i]);
    forall v | v in before + ws[..k]
      ensures KeyOf(v.row) != KeyOf(ws[k].row)
    {
      FlatMapIn(Wanter(zones), domains[..i], v);
      if KeyOf(v.row) == KeyOf(ws[k].row) {
        if v in before {
          var e :| e in domains[..i] && v in Wants(zones, e);
          WantedOnce(zones, e, domains[i], v, ws[k]);
          assert false;
        } else {
          WantsDistinct(zones, domains[i], k);
          assert false;
        }
      }
    }
  }

  lemma WantsDistinct(zones: map<string, Zone>, d: string, k: nat)
    requires k < |Wants(zones, d)|
    ensures forall v <- Wants(zones, d)[..k] :: KeyOf(v.row) != KeyOf(Wants(zones, d)[k].row)
  {
    hide Wants;
    var p, s := WantsAre(zones, d);
    NamesApart(s, s);
  }

  // ---- pruning ---------------------------------------------------------

  /** What `pdnsutil list-zone` answers: whether it succeeded, and its output. */
  datatype Listing = Listing(ok: bool, output: string)

  const COMPLAINT := "Zone '"

  predicate Serves(l: Listing) {
    l.ok && !Contains(l.output, COMPLAINT)
  }

  function Listed(zones: map<string, Zone>, list: string -> Listing): set<string> {
    set d | d in zones && Serves(list(d))
  }

  /** A sweep does without a zone if and only if its listing fails or has the complaint's words in it: whether PowerDNS
      hosts the zone does not matter. Such a zone leaves the table unless deleting it fails, and all its rows go unless
      deleting them fails; every other zone keeps all its rows. */
  lemma ZoneLostIff(db: Db, list: string -> Listing, f: Faults, d: string)
    requires DistinctIds(db.zones) && d in db.zones
    ensures var served := Listed(db.zones, list);
            var p, id := Pruned(db, served, f), db.zones[d].id;
            && (d !in Served(db.zones, served) <==> !list(d).ok || Contains(list(d).output, COMPLAINT))
            && (d !in p.zones <==> d !in Served(db.zones, served) && id !in f.noDrop)
            && (d !in Served(db.zones, served) && id !in f.noPurge ==> forall r <- p.records :: r.zone != id)
            && (d in Served(db.zones, served) || id in f.noPurge ==>
                  forall r <- db.records :: r.zone == id ==> r in p.records)
  {
    hide Contains;
    var served := Listed(db.zones, list);
    var ids := StaleIds(db.zones, served) - f.noPurge;
    forall r: Row
      ensures r in Outside(db.records, ids) <==> r in db.records && r.zone !in ids
    {
      OutsideIn(db.records, ids, r);
    }
  }

  /** During an outage, when every listing fails, every zone is lost; and so is a zone one of whose records holds the
      words of the complaint. */
  lemma HostedZonesLost(db: Db, list: string -> Listing, d: string, before: string, after: string)
    requires DistinctIds(db.zones) && d in db.zones
    ensures (forall e :: !list(e).ok) ==> Pruned(db, Listed(db.zones, list), NO_FAULTS).zones == map[]
    ensures list(d) == Listing(true, before + "Zone '" + after) ==>
              d !in Pruned(db, Listed(db.zones, list), NO_FAULTS).zones
  {
    hide Contains, Pruned;
    forall e | e in db.zones
      ensures !list(e).ok ==> e !in Pruned(db, Listed(db.zones, list), NO_FAULTS).zones
    {
      ZoneLostIff(db, list, NO_FAULTS, e);
    }
    PrunedDb(db, Listed(db.zones, list), NO_FAULTS);
    ZoneLostIff(db, list, NO_FAULTS, d);
    ContainsAt(COMPLAINT, COMPLAINT, 0);
    ContainsInMiddle(before, COMPLAINT, after, COMPLAINT);
  }

  lemma {:induction false} OutsideTwice(records: seq<Row>, a: set<nat>, b: set<nat>)
    ensures Outside(Outside(records, a), b) == Outside(records, a + b)
  {
    if records != [] {
      OutsideTwice(records[1..], a, b);
      OutsideCons(records[0], Outside(records[1..], a), b);
    }
  }

  lemma OutsideCons(r: Row, rest: seq<Row>, ids: set<nat>)
    ensures Outside([r] + rest, ids) == (if r.zone in ids then [] else [r]) + Outside(rest, ids)
    ensures Outside([] + rest, ids) == Outside(rest, ids)
  {
    assert ([r] + rest)[1..] == rest && [] + rest == rest;
  }

  lemma {:induction false} OutsideNothing(records: seq<Row>, ids: set<nat>)
    requires forall r <- records :: r.zone !in ids
    ensures Outside(records, ids) == records
  {
    if records != [] {
      HeadIn(records);
      OutsideNothing(records[1..], ids);
      assert records == [records[0]] + records[1..];
    }
  }

  lemma {:induction false} OutsideIn(records: seq<Row>, ids: set<nat>, r: Row)
    ensures r in Outside(records, ids) <==> r in records && r.zone !in ids
  {
    if records != [] {
      OutsideIn(records[1..], ids, r);
      assert r in records <==> r == records[0] || r in records[1..];
    }
  }

  /** Pruning one more zone. */
  lemma PruneStep(db: Db, served: set<string>, f: Faults, d: string)
    requires d in db.zones && d !in served
    ensures var now, id := Pruned(db, served + {d}, f), db.zones[d].id;
            && d in now.zones && now.zones[d] == db.zones[d]
            && d in Served(db.zones, served + {d})
            && Served(db.zones, served) == Served(db.zones, served + {d}) - {d}
            && Pruned(db, served, f)
               == Db(if id in f.noDrop then now.zones else now.zones - {d},
                     if id in f.noPurge then now.records else Outside(now.records, {id}), db.rrsets)
  {
    var id := db.zones[d].id;
    var ids := StaleIds(db.zones, served + {d}) - f.noPurge;
    OutsideTwice(db.records, ids, {id});
    assert StaleIds(db.zones, served) == StaleIds(db.zones, served + {d}) + {id};
    assert StaleIds(db.zones, served) - f.noPurge == if id in f.noPurge then ids else ids + {id};
    var more := Remaining(db.zones, served + {d}, f);
    assert Remaining(db.zones, served, f) == if id in f.noDrop then more else more - {d};
  }

  lemma PruneNone(db: Db, served: set<string>, f: Faults)
    requires db.zones.Keys <= served
    ensures Pruned(db, served, f) == db && Served(db.zones, served) == db.zones
  {
    assert StaleIds(db.zones, served) == {};
    assert StaleIds(db.zones, served) - f.noPurge == {};
    assert Remaining(db.zones, served, f) == db.zones;
    OutsideNothing(db.records, {});
  }

  // ---- the sweep -------------------------------------------------------

  class Panel {
    var zones: map<string, Zone>
    var records: seq<Row>
    var rrsets: map<RrsetKey, Rrset>

    constructor (db: Db)
      ensures State() == db
    {
      zones, records, rrsets := db.zones, db.records, db.rrsets;
    }

    function State(): Db
      reads this
    {
      Db(zones, records, rrsets)
    }

    /** Inserts the row of `w` unless one with its key is counted, and then writes its rrset. */
    method Backfill(w: Want, f: Faults) returns (ok: bool)
      modifies this
      ensures State() == Filled(old(State()), f, [w])
      ensures ok ==> State() == Filled(old(State()), Silent(f), [w])
    {
      hide Filled, Keys, Merge;
      FilledOne(State(), f, w);
      FilledOne(State(), Silent(f), w);
      ghost var rrset := Rrset(w.row.ttl, [w.row.value]);
      PutIsUnion(rrsets, RrsetKeyOf(w), rrset);
      var key := KeyOf(w.row);
      if key in Seen(records, f) {
        return true;
      }
      if key in f.noInsert {
        return false;
      }
      records := records + [w.row];
      if key in f.noWrite {
        return false;
      }
      rrsets := rrsets[RrsetKeyOf(w) := Rrset(w.row.ttl, [w.row.value])];
      return true;
    }

    /** Walks the zones in no particular order, asking PowerDNS for each one's listing; `live` are those left to
        heal. */
    method Prune(list: string -> Listing, f: Faults) returns (live: map<string, Zone>)
      modifies this
      ensures State() == Pruned(old(State()), Listed(old(zones), list), f)
      ensures live == Served(old(zones), Listed(old(zones), list))
    {
      ghost var was := State();
      ghost var served := Listed(zones, list);
      live := zones;
      var todo := zones.Keys;
      PruneNone(was, served + todo, f);
      while todo != {}
        invariant todo <= was.zones.Keys
        invariant State() == Pruned(was, served + todo, f) && live == Served(was.zones, served + todo)
        decreases |todo|
      {
        var d :| d in todo;
        if !Serves(list(d)) {
          PruneStep(was, served + (todo - {d}), f, d);
          assert served + todo == served + (todo - {d}) + {d};
          var id := live[d].id;
          if id !in f.noPurge {
            records := Outside(records, {id});
          }
          if id !in f.noDrop {
            zones := zones - {d};
          }
          live := live - {d};
        } else {
          assert served + todo == served + (todo - {d});
        }
        todo := todo - {d};
      }
      assert served + {} == served;
    }

    method HealDomain(live: map<string, Zone>, d: string, f: Faults, ghost base: Db,
                      ghost before: seq<Want>) returns (ok: bool)
      requires State() == Filled(base, f, before)
      requires forall k :: 0 <= k < |Wants(live, d)| ==> Fresh(Wants(live, d)[k], before + Wants(live, d)[..k])
      modifies this
      ensures State() == Filled(base, f, before + Wants(live, d))
      ensures ok && old(State()) == Filled(base, Silent(f), before) ==>
                State() == Filled(base, Silent(f), before + Wants(live, d))
    {
      hide Filled, Wants, ParentAt, Join, Split, Fresh;
      ghost var start := State();
      ok := true;
      var parent, subPart, found := FindParent(d, live.Keys);
      WantsFound(live, d, parent, subPart, found);
      if found {
        var wants := WantsUnder(parent, subPart, live[parent], d);
        assert before + wants[..0] == before;
        for k := 0 to |wants|
          invariant State() == Filled(base, f, before + wants[..k])
          invariant ok && start == Filled(base, Silent(f), before) ==>
                      State() == Filled(base, Silent(f), before + wants[..k])
        {
          assert before + wants[..k + 1] == before + wants[..k] + [wants[k]];
          FilledStep(base, f, before + wants[..k], wants[k]);
          FilledStep(base, Silent(f), before + wants[..k], wants[k]);
          var done := Backfill(wants[k], f);
          ok := ok && done;
        }
        assert wants[..|wants|] == wants;
      } else {
        assert before + [] == before;
      }
    }

    /** `list` says what `pdnsutil list-zone` answers, `domains` are the domain rows in cursor order. */
    method CmdHealDns(ip: string, list: string -> Listing, domains: seq<string>,
                      f: Faults) returns (configured: bool, ok: bool)
      requires DistinctIds(zones) && Distinct(domains)
      modifies this
      ensures configured <==> ip != ""
      ensures State() == if ip == "" then old(State())
                         else Healed(old(State()), Listed(old(zones), list), ip, domains, f)
      ensures configured && ok ==> State() == Healed(old(State()), Listed(old(zones), list), ip, domains, Silent(f))
    {
      hide Filled, Wants, Pruned, Fresh, Merge, FlatMap;
      if ip == "" {
        return false, true;
      }
      var served := Prune(list, f);
      ghost var base := State();
      var live := WithDefault(served, ip);
      PrunedZones(old(State()), Listed(old(zones), list), ip);
      ok := true;
      FilledNothing(base, f, live);
      FilledNothing(base, Silent(f), live);
      SilentPrune(old(State()), Listed(old(zones), list), f);
      assert domains[..0] == [];
      for i := 0 to |domains|
        invariant State() == Filled(base, f, FlatMap(Wanter(live), domains[..i]))
        invariant ok ==> State() == Filled(base, Silent(f), FlatMap(Wanter(live), domains[..i]))
      {
        assert domains[..i + 1] == domains[..i] + [domains[i]];
        FlatMapSnoc(Wanter(live), domains[..i], domains[i]);
        forall k | 0 <= k < |Wants(live, domains[i])|
          ensures Fresh(Wants(live, domains[i])[k], FlatMap(Wanter(live), domains[..i]) + Wants(live, domains[i])[..k])
        {
          NextFresh(live, domains, i, k);
        }
        var done := HealDomain(live, domains[i], f, base, FlatMap(Wanter(live), domains[..i]));
        ok := ok && done;
      }
      assert domains[..|domains|] == domains;
      configured := true;
    }
  }

  lemma WantsFound(live: map<string, Zone>, d: string, parent: string, sub: string, found: bool)
    requires var labels := Split(d, '.');
             match ParentAt(labels, live.Keys, |labels| - 2)
             case None => !found
             case Some(i) => found && parent == Join(labels[i..], ".") && sub == Join(labels[..i], ".")
    ensures found ==> parent in live
    ensures Wants(live, d) == if found then WantsUnder(parent, sub, live[parent], d) else []
  {
    hide Join, Split;
  }

  lemma PrunedZones(db: Db, served: set<string>, ip: string)
    requires DistinctIds(db.zones)
    ensures DistinctIds(WithDefault(Served(db.zones, served), ip))
  {
  }

  lemma SilentPrune(db: Db, served: set<string>, f: Faults)
    ensures Pruned(db, served, Silent(f)) == Pruned(db, served, f)
  {
  }

  lemma FilledNothing(db: Db, f: Faults, live: map<string, Zone>)
    ensures Filled(db, f, FlatMap(Wanter(live), [])) == db
  {
  }

  // ---- what the sweep achieves -----------------------------------------

  lemma AllWantsOnce(zones: map<string, Zone>, domains: seq<string>, v: Want, w: Want)
    requires DistinctIds(zones) && v in FlatMap(Wanter(zones), domains) && w in FlatMap(Wanter(zones), domains)
    requires KeyOf(v.row) == KeyOf(w.row) || RrsetKeyOf(v) == RrsetKeyOf(w)
    ensures v == w
  {
    hide Wants;
    FlatMapIn(Wanter(zones), domains, v);
    FlatMapIn(Wanter(zones), domains, w);
    var d :| d in domains && v in Wants(zones, d);
    var e :| e in domains && w in Wants(zones, e);
    WantedOnce(zones, d, e, v, w);
  }

  /** The rrsets after the sweep: exactly the wanted value where a row was inserted and its write succeeded, and what
      was there before everywhere else. */
  lemma RrsetsExact(db: Db, served: set<string>, ip: string, domains: seq<string>, f: Faults, k: RrsetKey)
    requires DistinctIds(db.zones)
    ensures var p := Pruned(db, served, f);
            var wants := AllWants(Served(db.zones, served), ip, domains);
            var after := Healed(db, served, ip, domains, f).rrsets;
            && (forall w <- wants :: RrsetKeyOf(w) == k && KeyOf(w.row) !in Seen(p.records, f) + f.noInsert + f.noWrite
                  ==> k in after && after[k] == Rrset(TTL, [w.row.value]))
            && ((forall w <- wants :: RrsetKeyOf(w) == k ==>
                   KeyOf(w.row) in Seen(p.records, f) + f.noInsert + f.noWrite)
                  ==> (k in after <==> k in db.rrsets) && (k in after ==> after[k] == db.rrsets[k]))
  {
    hide Wants, Pruned, Merge, FlatMap;
    var p := Pruned(db, served, f);
    var live := WithDefault(Served(db.zones, served), ip);
    var wants := FlatMap(Wanter(live), domains);
    var present := Seen(p.records, f);
    PrunedZones(db, served, ip);
    PrunedRrsets(db, served, f);
    forall v, w | v in wants && w in wants && k in Written(present, f, v) && k in Written(present, f, w)
      ensures v == w
    {
      AllWantsOnce(live, domains, v, w);
    }
    MergeAt(Writer(present, f), wants, k);
    forall w <- wants
      ensures w.row.ttl == TTL
    {
      WantTtl(live, domains, w);
    }
  }

  lemma PrunedRrsets(db: Db, served: set<string>, f: Faults)
    ensures Pruned(db, served, f).rrsets == db.rrsets
  {
  }

  lemma WantTtl(zones: map<string, Zone>, domains: seq<string>, w: Want)
    requires w in FlatMap(Wanter(zones), domains)
    ensures w.row.ttl == TTL
  {
    hide Wants;
    FlatMapIn(Wanter(zones), domains, w);
    var d :| d in domains && w in Wants(zones, d);
    var p, s := WantsAre(zones, d);
  }

  /** The rows after the sweep: those of surviving zones and, for every wanted key that had none, its row. */
  lemma RowsExact(db: Db, served: set<string>, ip: string, domains: seq<string>, f: Faults, r: Row)
    ensures var p := Pruned(db, served, f);
            var after := Healed(db, served, ip, domains, f).records;
            && p.records <= after
            && (r in p.records <==> r in db.records && r.zone !in StaleIds(db.zones, served) - f.noPurge)
            && (r in after[|p.records|..]
                <==> && KeyOf(r) !in Seen(p.records, f) + f.noInsert
                     && exists w :: w in AllWants(Served(db.zones, served), ip, domains) && r == w.row)
  {
    hide Wants, FlatMap;
    var p := Pruned(db, served, f);
    OutsideIn(db.records, StaleIds(db.zones, served) - f.noPurge, r);
    InsertedAre(Seen(p.records, f), f, AllWants(Served(db.zones, served), ip, domains));
    assert Healed(db, served, ip, domains, f).records[|p.records|..]
        == FlatMap(Inserter(Seen(p.records, f), f), AllWants(Served(db.zones, served), ip, domains));
  }

  /** No row of a pruned zone remains or is added, except those whose deletion failed. */
  lemma NoRowOfPrunedZone(db: Db, served: set<string>, ip: string, domains: seq<string>, f: Faults, r: Row)
    requires DistinctIds(db.zones) && r.zone in StaleIds(db.zones, served)
    ensures r in Healed(db, served, ip, domains, f).records <==> r in db.records && r.zone in f.noPurge
  {
    hide Wants, FlatMap, Pruned, Healed;
    var p := Pruned(db, served, f);
    var live := WithDefault(Served(db.zones, served), ip);
    var after := Healed(db, served, ip, domains, f).records;
    RowsExact(db, served, ip, domains, f, r);
    assert after == p.records + after[|p.records|..];
    forall w | w in AllWants(Served(db.zones, served), ip, domains)
      ensures w.row != r
    {
      FlatMapIn(Wanter(live), domains, w);
      var d :| d in domains && w in Wants(live, d);
      WantServed(db, served, ip, d, w);
    }
  }

  lemma WantServed(db: Db, served: set<string>, ip: string, d: string, w: Want)
    requires DistinctIds(db.zones) && w in Wants(WithDefault(Served(db.zones, served), ip), d)
    ensures w.row.zone !in StaleIds(db.zones, served)
  {
    hide Wants, WantsUnder;
    var live := WithDefault(Served(db.zones, served), ip);
    var p, s := WantsAre(live, d);
    WantZone(p, s, live[p], d, w);
  }

  /** PowerDNS serves exactly the wanted value. */
  predicate Serving(db: Db, w: Want) {
    RrsetKeyOf(w) in db.rrsets && db.rrsets[RrsetKeyOf(w)] == Rrset(TTL, [w.row.value])
  }

  /** When nothing fails, a domain with a surviving parent zone has an A at its name under that zone and a CNAME at www.
      and cname. of that name. Where no such record existed it is the wanted one, the CNAMEs pointing to the domain, and
      PowerDNS serves exactly that value; a record that existed keeps whatever value it has. */
  lemma EveryDomainComplete(db: Db, served: set<string>, ip: string, domains: seq<string>, d: string, sub: string,
                            parent: string)
    requires DistinctIds(db.zones) && d in domains
    requires ApexParent(d, Served(db.zones, served).Keys, parent) && d == sub + ['.'] + parent
    ensures var z := WithDefault(db.zones, ip)[parent];
            var after := Healed(db, served, ip, domains, NO_FAULTS);
            forall w <- WantsUnder(parent, sub, z, d) ::
              && KeyOf(w.row) in Keys(after.records)
              && (KeyOf(w.row) !in Keys(db.records) ==>
                    w.row in after.records && Serving(after, w))
  {
    hide Wants, WantsUnder, Pruned, Healed, FlatMap;
    var live := WithDefault(Served(db.zones, served), ip);
    var after := Healed(db, served, ip, domains, NO_FAULTS);
    PrunedDb(db, served, NO_FAULTS);
    ApexWants(live, d, sub, parent);
    forall w | w in WantsUnder(parent, sub, live[parent], d)
      ensures KeyOf(w.row) in Keys(after.records)
      ensures KeyOf(w.row) !in Keys(db.records) ==>
              w.row in after.records && Serving(after, w)
    {
      FlatMapIn(Wanter(live), domains, w);
      WantFilled(db, served, ip, domains, w);
    }
  }

  lemma WantFilled(db: Db, served: set<string>, ip: string, domains: seq<string>, w: Want)
    requires DistinctIds(db.zones) && w in AllWants(Served(db.zones, served), ip, domains)
    ensures var after := Healed(db, served, ip, domains, NO_FAULTS);
            && KeyOf(w.row) in Keys(after.records)
            && (KeyOf(w.row) !in Keys(Pruned(db, served, NO_FAULTS).records) ==>
                  w.row in after.records && Serving(after, w))
  {
    hide AllWants, FlatMap, Pruned, Healed;
    var p := Pruned(db, served, NO_FAULTS);
    var after := Healed(db, served, ip, domains, NO_FAULTS);
    RowsExact(db, served, ip, domains, NO_FAULTS, w.row);
    RrsetsExact(db, served, ip, domains, NO_FAULTS, RrsetKeyOf(w));
    var added := after.records[|p.records|..];
    assert after.records == p.records + added;
    KeysConcat(p.records, added);
    assert KeyOf(w.row) !in Keys(p.records) ==> w.row in added;
  }

  predicate NoRow(records: seq<Row>, zone: nat, kind: Kind, name: string) {
    forall r <- records :: !(r.zone == zone && r.kind == kind && r.name == name)
  }

  /** The table has the row, and PowerDNS serves exactly its value under that name of the parent zone. */
  predicate Published(db: Db, zone: nat, parent: string, kind: Kind, name: string, value: string) {
    && Row(zone, kind, name, value, 3600) in db.records
    && RrsetKey(parent, kind, name) in db.rrsets
    && db.rrsets[RrsetKey(parent, kind, name)] == Rrset(3600, [value])
  }

  /** What a sweep without failures publishes for a domain `sub.parent` with no records, spelled out: at its name the
      zone's address, or the configured one when the zone has none; at www. and cname. of it the domain itself. */
  lemma NewDomainPublished(db: Db, served: set<string>, ip: string, domains: seq<string>, sub: string, parent: string)
    requires DistinctIds(db.zones) && sub + ['.'] + parent in domains
    requires ApexParent(sub + ['.'] + parent, (set p | p in db.zones && p in served), parent)
    ensures var after := Healed(db, served, ip, domains, NO_FAULTS);
            var id, address := db.zones[parent].id, db.zones[parent].serverIP;
            && (NoRow(db.records, id, A, sub) ==>
                  Published(after, id, parent, A, sub, if address == "" then ip else address))
            && (NoRow(db.records, id, CNAME, "www." + sub) ==>
                  Published(after, id, parent, CNAME, "www." + sub, sub + ['.'] + parent + "."))
            && (NoRow(db.records, id, CNAME, "cname." + sub) ==>
                  Published(after, id, parent, CNAME, "cname." + sub, sub + ['.'] + parent + "."))
  {
    hide Healed, Wants;
    var d := sub + ['.'] + parent;
    assert Served(db.zones, served).Keys == set p | p in db.zones && p in served;
    EveryDomainComplete(db, served, ip, domains, d, sub, parent);
    var ws := WantsUnder(parent, sub, WithDefault(db.zones, ip)[parent], d);
    assert ws[0] in ws && ws[1] in ws && ws[2] in ws;
    forall w <- ws
      ensures NoRow(db.records, w.row.zone, w.row.kind, w.row.name) ==> KeyOf(w.row) !in Keys(db.records)
    {
    }
  }

  /** Nothing else is added: a row that was not there is one of those three for some listed domain, whatever fails. */
  lemma OnlyThoseAdded(db: Db, served: set<string>, ip: string, domains: seq<string>, f: Faults, r: Row)
      returns (sub: string, parent: string)
    requires DistinctIds(db.zones) && r in Healed(db, served, ip, domains, f).records && r !in db.records
    ensures parent in db.zones && parent in served && sub + ['.'] + parent in domains
    ensures var z, target := db.zones[parent], sub + ['.'] + parent + ".";
            || r == Row(z.id, A, sub, if z.serverIP == "" then ip else z.serverIP, 3600)
            || r == Row(z.id, CNAME, "www." + sub, target, 3600)
            || r == Row(z.id, CNAME, "cname." + sub, target, 3600)
  {
    hide Wants, FlatMap, Healed;
    var p := Pruned(db, served, f);
    var live := WithDefault(Served(db.zones, served), ip);
    var after := Healed(db, served, ip, domains, f).records;
    RowsExact(db, served, ip, domains, f, r);
    assert after == p.records + after[|p.records|..];
    var w :| w in AllWants(Served(db.zones, served), ip, domains) && r == w.row;
    FlatMapIn(Wanter(live), domains, w);
    var d :| d in domains && w in Wants(live, d);
    parent, sub := WantsAre(live, d);
  }

  lemma PrunedDb(db: Db, served: set<string>, f: Faults)
    ensures Pruned(db, served, f).zones == Remaining(db.zones, served, f)
    ensures Keys(Pruned(db, served, f).records) <= Keys(db.records)
    ensures f == NO_FAULTS ==> Pruned(db, served, f).zones == Served(db.zones, served)
  {
    forall r | r in Pruned(db, served, f).records
      ensures r in db.records
    {
      OutsideIn(db.records, StaleIds(db.zones, served) - f.noPurge, r);
    }
  }

  /** `p` is the registered parent of `d` with the fewest labels. */
  ghost predicate ApexParent(d: string, registered: set<string>, p: string) {
    && IsParent(d, registered, p)
    && forall q :: IsParent(d, registered, q) ==> |Split(p, '.')| <= |Split(q, '.')|
  }

  lemma ApexWants(zones: map<string, Zone>, d: string, sub: string, parent: string)
    requires ApexParent(d, zones.Keys, parent) && d == sub + ['.'] + parent
    ensures Wants(zones, d) == WantsUnder(parent, sub, zones[parent], d)
  {
    hide Join, Split, ParentAt, WantsUnder;
    var labels := Split(d, '.');
    ApexWins(d, zones.Keys);
    var i := ParentAt(labels, zones.Keys, |labels| - 2).value;
    var s, p := Join(labels[..i], "."), Join(labels[i..], ".");
    SameLength(d, s, p, sub, parent);
  }

  /** Two suffixes of a domain with the same number of labels are equal. */
  lemma SameLength(d: string, s: string, p: string, sub: string, parent: string)
    requires d == s + ['.'] + p && d == sub + ['.'] + parent && |Split(p, '.')| == |Split(parent, '.')|
    ensures s == sub && p == parent
  {
    hide Split;
    SplitConcat(s, p, '.');
    SplitConcat(sub, parent, '.');
    var n := |Split(s, '.')|;
    assert Split(d, '.')[..n] == Split(s, '.') && Split(d, '.')[..n] == Split(sub, '.');
    assert Split(d, '.')[n..] == Split(p, '.') && Split(d, '.')[n..] == Split(parent, '.');
    JoinSplit(s, '.');
    JoinSplit(p, '.');
    JoinSplit(sub, '.');
    JoinSplit(parent, '.');
  }

  /** The order in which the domain rows come back does not matter: zones and rrsets are the same, the surviving rows
      stay in front, and the same rows are added. (Zones are a map: no order of theirs enters the result.) */
  lemma OrderFree(db: Db, served: set<string>, ip: string, domains: seq<string>, domains': seq<string>, f: Faults)
    requires DistinctIds(db.zones) && multiset(domains) == multiset(domains')
    ensures var x, y := Healed(db, served, ip, domains, f), Healed(db, served, ip, domains', f);
            && x.zones == y.zones && x.rrsets == y.rrsets && multiset(x.records) == multiset(y.records)
            && Pruned(db, served, f).records <= x.records && Pruned(db, served, f).records <= y.records
  {
    hide Wants, Pruned, FlatMap, Merge;
    var p := Pruned(db, served, f);
    var present := Seen(p.records, f);
    var live := WithDefault(Served(db.zones, served), ip);
    var ws, ws' := FlatMap(Wanter(live), domains), FlatMap(Wanter(live), domains');
    FlatMapBag(Wanter(live), domains, domains');
    FlatMapBag(Inserter(present, f), ws, ws');
    SameMembers(ws, ws');
    PrunedZones(db, served, ip);
    MergeSame(live, domains, Writer(present, f), ws, ws', present, f);
  }

  lemma MergeSame(live: map<string, Zone>, domains: seq<string>, writer: Want -> map<RrsetKey, Rrset>,
                  ws: seq<Want>, ws': seq<Want>,
                  present: set<Key>, f: Faults)
    requires DistinctIds(live) && ws == FlatMap(Wanter(live), domains) && writer == Writer(present, f)
    requires forall w :: w in ws <==> w in ws'
    ensures Merge(writer, ws) == Merge(writer, ws')
  {
    hide Wants, FlatMap, Merge;
    forall k, v, w | v in ws && w in ws && k in Written(present, f, v) && k in Written(present, f, w)
      ensures v == w
    {
      AllWantsOnce(live, domains, v, w);
    }
    forall k
      ensures k in Merge(writer, ws) <==> k in Merge(writer, ws')
      ensures k in Merge(writer, ws) ==> Merge(writer, ws)[k] == Merge(writer, ws')[k]
    {
      MergeAt(writer, ws, k);
      MergeAt(writer, ws', k);
    }
  }

  /** After a sweep without failures a second one, with any failures, changes nothing if and only if every wanted record
      whose count fails also fails to be inserted. */
  lemma SecondSweepChangesNothingIff(db: Db, served: set<string>, ip: string, domains: seq<string>, f: Faults)
    requires DistinctIds(db.zones)
    ensures var once := Healed(db, served, ip, domains, NO_FAULTS);
            Healed(once, served, ip, domains, f) == once
            <==> forall w <- AllWants(Served(db.zones, served), ip, domains) ::
                   KeyOf(w.row) in f.noCount ==> KeyOf(w.row) in f.noInsert
  {
    hide Wants, Pruned, FlatMap, Merge, Healed, AllWants;
    var once := Healed(db, served, ip, domains, NO_FAULTS);
    HealedZones(db, served, ip, domains, NO_FAULTS);
    PruneNone(once, served, f);
    var wants := AllWants(once.zones, ip, domains);
    forall w | w in wants
      ensures KeyOf(w.row) in Keys(once.records)
    {
      WantFilled(db, served, ip, domains, w);
    }
    HealedIs(once, served, ip, domains, f);
    if forall w <- wants :: KeyOf(w.row) in f.noCount ==> KeyOf(w.row) in f.noInsert {
      NothingMissing(once, f, wants);
    } else {
      var w :| w in wants && KeyOf(w.row) in f.noCount && KeyOf(w.row) !in f.noInsert;
      RowsExact(once, served, ip, domains, f, w.row);
      assert Healed(once, served, ip, domains, f).records[|once.records|..] != [];
    }
  }

  /** When a wanted record has a row already, the sweep adds another one if and only if counting fails and inserting
      does not; then the rrset is overwritten with the wanted value if its write succeeds. */
  lemma DuplicateRowIff(db: Db, served: set<string>, ip: string, domains: seq<string>, f: Faults, w: Want)
    requires DistinctIds(db.zones) && w in AllWants(Served(db.zones, served), ip, domains)
    requires KeyOf(w.row) in Keys(Pruned(db, served, f).records)
    ensures var before, after := Pruned(db, served, f).records, Healed(db, served, ip, domains, f);
            var key := KeyOf(w.row);
            && before <= after.records
            && (w.row in after.records[|before|..] <==> key in f.noCount && key !in f.noInsert)
            && (key in f.noCount && key !in f.noInsert + f.noWrite ==> Serving(after, w))
  {
    hide AllWants, Pruned, Healed;
    RowsExact(db, served, ip, domains, f, w.row);
    RrsetsExact(db, served, ip, domains, f, RrsetKeyOf(w));
  }

  lemma HealedIs(db: Db, served: set<string>, ip: string, domains: seq<string>, f: Faults)
    requires Pruned(db, served, f) == db && Served(db.zones, served) == db.zones
    ensures Healed(db, served, ip, domains, f) == Filled(db, f, AllWants(db.zones, ip, domains))
  {
  }

  lemma HealedZones(db: Db, served: set<string>, ip: string, domains: seq<string>, f: Faults)
    ensures Healed(db, served, ip, domains, f).zones == Remaining(db.zones, served, f)
    ensures Served(Remaining(db.zones, served, f), served) == Served(db.zones, served)
    ensures DistinctIds(db.zones) ==> DistinctIds(Remaining(db.zones, served, f))
    ensures f == NO_FAULTS ==> Remaining(db.zones, served, f) == Served(db.zones, served)
    ensures f == NO_FAULTS ==> Remaining(db.zones, served, f).Keys <= served
  {
  }

  lemma {:induction false} NothingMissing(db: Db, f: Faults, wants: seq<Want>)
    requires forall w <- wants :: KeyOf(w.row) in Seen(db.records, f) + f.noInsert
    ensures Filled(db, f, wants) == db
  {
    var present := Seen(db.records, f);
    if wants != [] {
      HeadIn(wants);
      NothingMissing(db, f, wants[1..]);
      var rest := FlatMap(Inserter(present, f), wants[1..]);
      assert |db.records + rest| == |db.records| + |rest|;
      assert FlatMap(Inserter(present, f), wants) == [] + rest;
      var more := Merge(Writer(present, f), wants[1..]);
      assert Merge(Writer(present, f), wants) == map[] + more;
    }
  }

  lemma OneSweep(db: Db, served: set<string>, ip: string, domains: seq<string>, f: Faults, w: Want)
    requires DistinctIds(db.zones) && w in AllWants(Served(db.zones, served), ip, domains)
    ensures var after := Healed(db, served, ip, domains, f);
            var key, k := KeyOf(w.row), RrsetKeyOf(w);
            var inserts := key !in f.noInsert && (key !in Keys(db.records) || key in f.noCount);
            && DistinctIds(after.zones) && Served(after.zones, served) == Served(db.zones, served)
            && (k in after.rrsets <==> k in db.rrsets || (inserts && key !in f.noWrite))
            && (key in Keys(after.records) <==> key in Keys(db.records) || inserts)
  {
    hide Wants, Pruned, FlatMap, Merge, Healed, AllWants;
    var p := Pruned(db, served, f);
    var wants := AllWants(Served(db.zones, served), ip, domains);
    var after := Healed(db, served, ip, domains, f);
    HealedZones(db, served, ip, domains, f);
    ServedRows(db, served, ip, domains, f, w);
    RrsetsExact(db, served, ip, domains, f, RrsetKeyOf(w));
    RowsExact(db, served, ip, domains, f, w.row);
    var added := after.records[|p.records|..];
    assert after.records == p.records + added;
    KeysConcat(p.records, added);
    forall v | v in wants && (RrsetKeyOf(v) == RrsetKeyOf(w) || KeyOf(v.row) == KeyOf(w.row))
      ensures v == w
    {
      PrunedZones(db, served, ip);
      AllWantsSame(Served(db.zones, served), ip, domains, v, w);
    }
    forall r | r in added && KeyOf(r) == KeyOf(w.row)
      ensures r == w.row && KeyOf(r) !in Seen(p.records, f) + f.noInsert
    {
      RowsExact(db, served, ip, domains, f, r);
    }
  }

  /** Pruning takes no row with a wanted key. */
  lemma ServedRows(db: Db, served: set<string>, ip: string, domains: seq<string>, f: Faults, w: Want)
    requires DistinctIds(db.zones) && w in AllWants(Served(db.zones, served), ip, domains)
    ensures KeyOf(w.row) in Keys(Pruned(db, served, f).records) <==> KeyOf(w.row) in Keys(db.records)
  {
    hide Wants, FlatMap;
    var live := WithDefault(Served(db.zones, served), ip);
    FlatMapIn(Wanter(live), domains, w);
    var d :| d in domains && w in Wants(live, d);
    WantServed(db, served, ip, d, w);
    forall r: Row
      ensures r in Pruned(db, served, f).records
              <==> r in db.records && r.zone !in StaleIds(db.zones, served) - f.noPurge
    {
      OutsideIn(db.records, StaleIds(db.zones, served) - f.noPurge, r);
    }
  }

  // ---- many sweeps -----------------------------------------------------

  /** What is outside a sweep's control. */
  datatype Sweep = Sweep(served: set<string>, ip: string, domains: seq<string>, faults: Faults)

  function AfterSweeps(db: Db, sweeps: seq<Sweep>): Db {
    if sweeps == [] then db
    else
      var n := |sweeps| - 1;
      Healed(AfterSweeps(db, sweeps[..n]), sweeps[n].served, sweeps[n].ip, sweeps[n].domains, sweeps[n].faults)
  }

  /** Sweep `i` inserts the row of a record that had none at first. */
  predicate Inserts(sweeps: seq<Sweep>, key: Key, i: nat) {
    && i < |sweeps| && key !in sweeps[i].faults.noInsert
    && (key in sweeps[i].faults.noCount || forall j :: 0 <= j < i ==> key in sweeps[j].faults.noInsert)
  }

  /** The row is inserted before the rrset is written, and later sweeps look only at the row: over any number of sweeps,
      a record with neither row nor rrset at first gets its rrset if and only if some sweep inserts the row and writes
      the rrset, where only the first sweep able to insert it does, or one whose count fails. A failed insertion is
      retried, a failed write never is, except by accident of a failed count. */
  lemma {:induction false} FailedWriteNeverRetried(db: Db, sweeps: seq<Sweep>, served: set<string>, ip: string,
                                                   domains: seq<string>, w: Want)
    requires DistinctIds(db.zones) && w in AllWants(Served(db.zones, served), ip, domains)
    requires forall s <- sweeps :: s.served == served && s.ip == ip && s.domains == domains
    requires KeyOf(w.row) !in Keys(db.records) && RrsetKeyOf(w) !in db.rrsets
    ensures var after, key := AfterSweeps(db, sweeps), KeyOf(w.row);
            && DistinctIds(after.zones) && Served(after.zones, served) == Served(db.zones, served)
            && (key in Keys(after.records) <==> exists i :: 0 <= i < |sweeps| && key !in sweeps[i].faults.noInsert)
            && (RrsetKeyOf(w) in after.rrsets
                <==> exists i :: 0 <= i < |sweeps| && Inserts(sweeps, key, i) && key !in sweeps[i].faults.noWrite)
  {
    hide AllWants, Healed, Served, Keys;
    if sweeps != [] {
      var n, key := |sweeps| - 1, KeyOf(w.row);
      var before, last := sweeps[..n], sweeps[n];
      FailedWriteNeverRetried(db, before, served, ip, domains, w);
      assert last in sweeps;
      OneSweep(AfterSweeps(db, before), served, ip, domains, last.faults, w);
      assert forall i :: 0 <= i < n ==> (Inserts(before, key, i) <==> Inserts(sweeps, key, i));
    }
  }

  /** A row whose zone has left the table is never deleted, whatever later sweeps do. */
  lemma {:induction false} OrphanRowsStay(db: Db, sweeps: seq<Sweep>, r: Row)
    requires r in db.records && forall d <- db.zones :: db.zones[d].id != r.zone
    ensures var after := AfterSweeps(db, sweeps);
            r in after.records && forall d <- after.zones :: after.zones[d].id != r.zone
  {
    hide Healed, StaleIds;
    if sweeps != [] {
      var n := |sweeps| - 1;
      OrphanRowsStay(db, sweeps[..n], r);
      var s := sweeps[n];
      OrphanOneSweep(AfterSweeps(db, sweeps[..n]), s.served, s.ip, s.domains, s.faults, r);
    }
  }

  lemma OrphanOneSweep(db: Db, served: set<string>, ip: string, domains: seq<string>, f: Faults, r: Row)
    requires r in db.records && forall d <- db.zones :: db.zones[d].id != r.zone
    ensures var after := Healed(db, served, ip, domains, f);
            r in after.records && forall d <- after.zones :: after.zones[d].id != r.zone
  {
    RowsExact(db, served, ip, domains, f, r);
    assert r.zone !in StaleIds(db.zones, served);
  }

  /** A sweep leaves such a row exactly when it deletes a zone of the table and fails to delete the row. */
  lemma OrphanIff(db: Db, served: set<string>, ip: string, domains: seq<string>, f: Faults, r: Row, d: string)
    requires DistinctIds(db.zones) && d in db.zones && r in db.records && r.zone == db.zones[d].id
    ensures var after := Healed(db, served, ip, domains, f);
            r in after.records && (forall e <- after.zones :: after.zones[e].id != r.zone)
            <==> d !in served && r.zone in f.noPurge && r.zone !in f.noDrop
  {
    hide Wants, FlatMap, Merge;
    var after := Healed(db, served, ip, domains, f);
    if d in served {
      assert d in after.zones;
    } else {
      assert r.zone in StaleIds(db.zones, served);
      NoRowOfPrunedZone(db, served, ip, domains, f, r);
      assert r.zone in f.noDrop ==> d in after.zones;
    }
  }

  lemma AllWantsSame(zones: map<string, Zone>, ip: string, domains: seq<string>, v: Want, w: Want)
    requires DistinctIds(WithDefault(zones, ip))
    requires v in AllWants(zones, ip, domains) && w in AllWants(zones, ip, domains)
    requires KeyOf(v.row) == KeyOf(w.row) || RrsetKeyOf(v) == RrsetKeyOf(w)
    ensures v == w
  {
    AllWantsOnce(WithDefault(zones, ip), domains, v, w);
  }

  /** No two wanted rows have the same key, so no record is added twice. */
  lemma {:induction false} NoDuplicateAdded(zones: map<string, Zone>, domains: seq<string>, n: nat)
    requires DistinctIds(zones) && Distinct(domains) && n <= |domains|
    ensures DistinctKeys(FlatMap(Wanter(zones), domains[..n]))
  {
    hide Wants, Fresh;
    if n > 0 {
      var i := n - 1;
      NoDuplicateAdded(zones, domains, i);
      assert domains[..n] == domains[..i] + [domains[i]];
      FlatMapSnoc(Wanter(zones), domains[..i], domains[i]);
      var ws := Wants(zones, domains[i]);
      forall k | 0 <= k < |ws|
        ensures Fresh(ws[k], FlatMap(Wanter(zones), domains[..i]) + ws[..k])
      {
        NextFresh(zones, domains, i, k);
      }
      DistinctAppend(FlatMap(Wanter(zones), domains[..i]), ws, |ws|);
      assert ws[..|ws|] == ws;
    }
  }

  predicate DistinctKeys(ws: seq<Want>) {
    forall i, j :: 0 <= i < j < |ws| ==> KeyOf(ws[i].row) != KeyOf(ws[j].row)
  }

  lemma {:induction false} DistinctAppend(before: seq<Want>, ws: seq<Want>, n: nat)
    requires n <= |ws| && DistinctKeys(before)
    requires forall k :: 0 <= k < |ws| ==> Fresh(ws[k], before + ws[..k])
    ensures DistinctKeys(before + ws[..n])
  {
    if n == 0 {
      assert before + ws[..0] == before;
    } else {
      DistinctAppend(before, ws, n - 1);
      assert before + ws[..n] == before + ws[..n - 1] + [ws[n - 1]];
    }
  }
}
