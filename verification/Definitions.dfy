/** Memory accesses, the map from accessed memory to defining nodes, and the
    definitions that a sequence of nodes leaves behind. */
module MemoryDefinitions {
  import opened Offsets
  import opened DisjunctiveIntervals

  type Node = nat

  /** One byte of one memory object. */
  datatype Loc = Loc(target: Node, byte: Offset)

  /** `len` bytes of the object `target` from `offset` on. */
  datatype DefSite = DefSite(target: Node, offset: Offset, len: Offset)
  {
    function Bytes(): Interval {
      if offset == UNKNOWN then Interval(0, UNKNOWN) else Interval(offset, Add(offset, Sub(len, 1)))
    }

    predicate Has(l: Loc) { l.target == target && Bytes().Has(l.byte) }

    /** The bytes do not stop right before the unknown offset. */
    predicate Proper() { Bytes().Valid() }
  }

  /** A site at a known offset holds `len` bytes from there on, or all of them if the length is
      unknown or zero; a site at an unknown offset may hold any byte. */
  lemma BytesMean(ds: DefSite, l: Loc)
    ensures var fromStart := l.byte >= ds.offset && (ds.len == UNKNOWN || ds.len == 0 || l.byte < ds.offset + ds.len);
      ds.Has(l) <==> l.target == ds.target && (ds.offset == UNKNOWN || fromStart)
  {
  }

  /** The DefSite that stands for an interval of bytes of a target. */
  function SiteOf(target: Node, I: Interval): DefSite {
    DefSite(target, I.start, Add(Sub(I.end, I.start), 1))
  }

  lemma SiteRoundTrip(target: Node, I: Interval)
    requires I.Valid()
    ensures SiteOf(target, I).Proper() && SiteOf(target, I).Bytes() == I
  {
    assert I.end == UNKNOWN || Sub(I.end, I.start) == I.end - I.start;
  }

  datatype Kind = Regular | Phi | InArg

  /** A node of the read-write graph: weak and strong definitions, and uses. */
  datatype RWNode = RWNode(defines: seq<DefSite>, overwrites: seq<DefSite>, uses: seq<DefSite>, kind: Kind)
  {
    predicate IsPhi() { kind != Regular }
    ghost predicate Weak(l: Loc) { exists i :: 0 <= i < |defines| && defines[i].Has(l) }
    ghost predicate Strong(l: Loc) { exists i :: 0 <= i < |overwrites| && overwrites[i].Has(l) }
    ghost predicate Proper() {
      && (forall i :: 0 <= i < |defines| ==> defines[i].Proper())
      && (forall i :: 0 <= i < |overwrites| ==> overwrites[i].Proper())
      && (forall i :: 0 <= i < |uses| ==> uses[i].Proper())
    }
  }

  // ---- maps from memory to nodes

  type DefinitionsMap = map<Node, seq<Entry<Node>>>

  ghost predicate WellFormed(m: DefinitionsMap) {
    forall t :: t in m ==> m[t] != [] && Sorted(m[t])
  }

  ghost function NodesAt(m: DefinitionsMap, l: Loc): set<Node> {
    if l.target in m then At(m[l.target], l.byte) else {}
  }

  /** Add (or, if `update`, set) the definition of the memory of ds by n. */
  method Put(m: DefinitionsMap, ds: DefSite, n: Node, update: bool) returns (r: DefinitionsMap)
    requires WellFormed(m) && ds.Proper()
    ensures WellFormed(r)
    ensures forall l: Loc :: NodesAt(r, l) == if ds.Has(l) then Inserted(NodesAt(m, l), n, update) else NodesAt(m, l)
  {
    var offsets := new DisjunctiveIntervalMap(if ds.target in m then m[ds.target] else []);
    ghost var was := offsets.mapping;
    assert forall l: Loc :: l.target == ds.target ==> NodesAt(m, l) == At(was, l.byte);
    var _ := offsets.AddOrUpdate(ds.Bytes(), n, update);
    r := m[ds.target := offsets.mapping];
  }

  /** The nodes that define some byte of ds. */
  method Get(m: DefinitionsMap, ds: DefSite) returns (r: set<Node>)
    requires WellFormed(m) && ds.Proper()
    ensures forall n :: n in r <==> exists l: Loc :: ds.Has(l) && n in NodesAt(m, l)
  {
    if ds.target !in m {
      return {};
    }
    var offsets := new DisjunctiveIntervalMap(m[ds.target]);
    r := offsets.Gather(ds.Bytes());
    forall n, l: Loc | ds.Has(l) && n in NodesAt(m, l) ensures n in r {
      assert ds.Bytes().Has(l.byte);
    }
    forall n | n in r ensures exists l: Loc :: ds.Has(l) && n in NodesAt(m, l) {
      var b: Offset :| ds.Bytes().Has(b) && n in At(m[ds.target], b);
      assert ds.Has(Loc(ds.target, b)) && n in NodesAt(m, Loc(ds.target, b));
    }
  }

  /** The sites returned cover the bytes of ds that m leaves undefined; they
      hold no defined byte, and start inside ds. */
  ghost predicate UndefinedIn(m: DefinitionsMap, ds: DefSite, sites: seq<DefSite>) {
    && (forall i :: 0 <= i < |sites| ==>
          sites[i].Proper() && sites[i].target == ds.target && ds.Has(Loc(ds.target, sites[i].offset)))
    && (forall i, l: Loc :: 0 <= i < |sites| && sites[i].Has(l) ==> NodesAt(m, l) == {})
    && (forall l: Loc :: ds.Has(l) && NodesAt(m, l) == {} ==> exists i :: 0 <= i < |sites| && sites[i].Has(l))
    && ((forall l: Loc :: ds.Has(l) ==> NodesAt(m, l) == {}) ==> |sites| == 1 && sites[0].Bytes() == ds.Bytes())
  }

  /** Some site holds bytes behind the end of ds. */
  ghost predicate Oversteps(ds: DefSite, sites: seq<DefSite>) {
    exists i :: 0 <= i < |sites| && sites[i].Bytes().end > ds.Bytes().end
  }

  /** When a site does: neither the last byte of ds nor its neighbour is defined, but some
      byte behind them is, and some byte of ds. */
  ghost predicate WillOverstep(m: DefinitionsMap, ds: DefSite) {
    ds.target in m && RunsPast(m[ds.target], ds.Bytes()) && exists b: Offset ::
      ds.Bytes().Has(b) && At(m[ds.target], b) != {}
  }

  method UndefinedIntervals(m: DefinitionsMap, ds: DefSite) returns (sites: seq<DefSite>)
    requires WellFormed(m) && ds.Proper()
    ensures UndefinedIn(m, ds, sites)
    ensures Oversteps(ds, sites) <==> WillOverstep(m, ds)
  {
    hide RunsPast, At, UndefinedIn, UncoveredBy;
    if ds.target !in m {
      sites := [SiteOf(ds.target, Interval(ds.offset, Add(ds.offset, Sub(ds.len, 1))))];
      WholeSite(ds);
      UndefinedTarget(m, ds, sites);
    } else {
      var offsets := new DisjunctiveIntervalMap(m[ds.target]);
      var ivs := offsets.Uncovered(ds.Bytes());
      sites := seq(|ivs|, i requires 0 <= i < |ivs| => SiteOf(ds.target, ivs[i]));
      SitesOfIntervals(m, ds, m[ds.target], ivs, sites);
      SameEnds(ds, ivs, sites);
    }
  }

  /** The interval of a site, turned into a site again, has the same bytes: one that starts
      at the unknown offset stands for all of them. */
  lemma WholeSite(ds: DefSite)
    requires ds.Proper()
    ensures var s := SiteOf(ds.target, Interval(ds.offset, Add(ds.offset, Sub(ds.len, 1))));
      s.target == ds.target && s.offset == ds.offset && s.Bytes() == ds.Bytes() && s.Proper()
  {
    if ds.offset != UNKNOWN { SiteRoundTrip(ds.target, ds.Bytes()); }
  }

  lemma UndefinedTarget(m: DefinitionsMap, ds: DefSite, sites: seq<DefSite>)
    requires ds.target !in m && ds.Proper()
    requires |sites| == 1 && sites[0].target == ds.target && sites[0].offset == ds.offset
    requires sites[0].Bytes() == ds.Bytes()
    ensures UndefinedIn(m, ds, sites)
  {
    assert forall l: Loc :: l.target == ds.target ==> NodesAt(m, l) == {};
    assert forall l: Loc :: ds.Has(l) <==> sites[0].Has(l);
  }

  lemma SitesOfIntervals(m: DefinitionsMap, ds: DefSite, entries: seq<Entry<Node>>, ivs: seq<Interval>,
                         sites: seq<DefSite>)
    requires ds.Proper() && entries == if ds.target in m then m[ds.target] else []
    requires UncoveredBy(entries, ds.Bytes(), ivs)
    requires |sites| == |ivs| && forall i :: 0 <= i < |ivs| ==> sites[i] == SiteOf(ds.target, ivs[i])
    ensures UndefinedIn(m, ds, sites)
    ensures forall i :: 0 <= i < |ivs| ==> sites[i].Bytes() == ivs[i]
  {
    assert forall l: Loc :: l.target == ds.target ==> NodesAt(m, l) == At(entries, l.byte);
    forall i | 0 <= i < |ivs|
      ensures sites[i].Proper() && sites[i].Bytes() == ivs[i]
    {
      SiteRoundTrip(ds.target, ivs[i]);
    }
    SitesCover(m, ds, entries, ivs, sites);
  }

  lemma SameEnds(ds: DefSite, ivs: seq<Interval>, sites: seq<DefSite>)
    requires |sites| == |ivs| && forall i :: 0 <= i < |ivs| ==> sites[i].Bytes() == ivs[i]
    ensures Oversteps(ds, sites) <==> PastEnd(ivs, ds.Bytes())
  {
    hide DefSite.Bytes;
    if PastEnd(ivs, ds.Bytes()) {
      var i :| 0 <= i < |ivs| && ivs[i].end > ds.Bytes().end;
      assert sites[i].Bytes().end > ds.Bytes().end;
    }
  }

  lemma SitesCover(m: DefinitionsMap, ds: DefSite, entries: seq<Entry<Node>>, ivs: seq<Interval>, sites: seq<DefSite>)
    requires ds.Proper() && UncoveredBy(entries, ds.Bytes(), ivs)
    requires forall l: Loc :: l.target == ds.target ==> NodesAt(m, l) == At(entries, l.byte)
    requires |sites| == |ivs|
    requires forall i :: 0 <= i < |ivs| ==>
      sites[i].target == ds.target && sites[i].offset == ivs[i].start && sites[i].Proper() && sites[i].Bytes() == ivs[i]
    ensures UndefinedIn(m, ds, sites)
  {
    hide At, NodesAt;
    SitesReach(m, ds, entries, ivs, sites);
    SitesAreUndefined(m, ds, entries, ivs, sites);
    if forall l: Loc :: ds.Has(l) ==> NodesAt(m, l) == {} {
      forall b: Offset | ds.Bytes().Has(b) ensures At(entries, b) == {} {
        assert ds.Has(Loc(ds.target, b));
      }
    }
  }

  lemma SitesReach(m: DefinitionsMap, ds: DefSite, entries: seq<Entry<Node>>, ivs: seq<Interval>, sites: seq<DefSite>)
    requires UncoveredBy(entries, ds.Bytes(), ivs) && |sites| == |ivs|
    requires forall l: Loc :: l.target == ds.target ==> NodesAt(m, l) == At(entries, l.byte)
    requires forall i :: 0 <= i < |ivs| ==> sites[i].target == ds.target && sites[i].Bytes() == ivs[i]
    ensures forall l: Loc :: ds.Has(l) && NodesAt(m, l) == {} ==> exists i :: 0 <= i < |sites| && sites[i].Has(l)
  {
    hide At, NodesAt;
    forall l: Loc | ds.Has(l) && NodesAt(m, l) == {} ensures exists i :: 0 <= i < |sites| && sites[i].Has(l) {
      assert InSome(ivs, l.byte);
      var i :| 0 <= i < |ivs| && ivs[i].Has(l.byte);
      assert sites[i].Has(l);
    }
  }

  lemma SitesAreUndefined(m: DefinitionsMap, ds: DefSite, entries: seq<Entry<Node>>, ivs: seq<Interval>,
                          sites: seq<DefSite>)
    requires UncoveredBy(entries, ds.Bytes(), ivs) && |sites| == |ivs|
    requires forall l: Loc :: l.target == ds.target ==> NodesAt(m, l) == At(entries, l.byte)
    requires forall i :: 0 <= i < |ivs| ==> sites[i].target == ds.target && sites[i].Bytes() == ivs[i]
    ensures forall i, l: Loc :: 0 <= i < |sites| && sites[i].Has(l) ==> NodesAt(m, l) == {}
  {
    hide At, NodesAt;
    forall i, l: Loc | 0 <= i < |sites| && sites[i].Has(l) ensures NodesAt(m, l) == {} { assert ivs[i].Has(l.byte); }
  }

  // ---- definitions of a block

  datatype Definitions = Definitions(processed: bool, definitions: DefinitionsMap, kills: DefinitionsMap)
  {
    ghost predicate Valid() { WellFormed(definitions) && WellFormed(kills) }
  }

  const NoDefinitions := Definitions(false, map[], map[])

  /** What executing one node does to the set of definitions of one byte. */
  ghost function AfterNode(defs: set<Node>, n: Node, a: RWNode, l: Loc): set<Node> {
    if a.Strong(l) then {n} else if a.Weak(l) then defs + {n} else defs
  }

  /** Update D as if the node n were executed. */
  method Update(D: Definitions, n: Node, a: RWNode) returns (r: Definitions)
    requires D.Valid() && a.Proper()
    ensures r.Valid() && r.processed == D.processed
    ensures forall l: Loc :: NodesAt(r.definitions, l) == AfterNode(NodesAt(D.definitions, l), n, a, l)
    ensures forall l: Loc ::
      NodesAt(r.kills, l) == if a.Strong(l) then NodesAt(D.kills, l) + {n} else NodesAt(D.kills, l)
  {
    var defs := PutAll(D.definitions, a.defines, n, false);
    var kills := PutAll(D.kills, a.overwrites, n, false);
    defs := PutAll(defs, a.overwrites, n, true);
    r := D.(definitions := defs, kills := kills);
  }

  method PutAll(m: DefinitionsMap, sites: seq<DefSite>, n: Node, update: bool) returns (r: DefinitionsMap)
    requires WellFormed(m) && forall i :: 0 <= i < |sites| ==> sites[i].Proper()
    ensures WellFormed(r)
    ensures forall l: Loc ::
      NodesAt(r, l) == if exists i :: 0 <= i < |sites| && sites[i].Has(l) then Inserted(NodesAt(m, l), n, update)
                       else NodesAt(m, l)
  {
    r := m;
    for k := 0 to |sites|
      invariant WellFormed(r)
      invariant forall l: Loc ::
        NodesAt(r, l) == (if exists i :: 0 <= i < k && sites[i].Has(l) then Inserted(NodesAt(m, l), n, update)
                          else NodesAt(m, l))
    {
      r := Put(r, sites[k], n, update);
    }
  }
}
