/**
 * The navigation map: a dictionary from tile position to navigation point, where each point keeps an ordered
 * list of links to neighbouring points, each with a cost multiplier. The map keeps links paired (a link a->b
 * always comes with b->a and the same multiplier); a point on its own only adds or breaks one direction.
 */
module Navigation {
  import opened Wrappers
  import Directions

  /** A position on the layered tile map, compared exactly. */
  datatype Pos = Pos(x: int, y: int, layer: int)

  /** A directed link to a neighbouring point, with the multiplier applied to the cost of taking it. */
  datatype NavigationPointLink = NavigationPointLink(linkTo: Pos, costMultiplier: real)

  type Links = seq<NavigationPointLink>

  /** The abstract map: each position with its ordered list of outgoing links. */
  type Graph = map<Pos, Links>

  /** Some link of the list targets `target`. */
  predicate HasLinkTo(links: Links, target: Pos)
  {
    exists l :: l in links && l.linkTo == target
  }

  /** At most one link per target: the invariant a point keeps. */
  ghost predicate UniqueTargets(links: Links)
  {
    forall i, j :: 0 <= i < j < |links| ==> links[i].linkTo != links[j].linkTo
  }

  /** `List.FindIndex(v => v.linkTo == target)`: the index of the first link to `target`, or -1. */
  function FindIndex(links: Links, target: Pos): (i: int)
    ensures -1 <= i < |links|
    ensures i == -1 <==> !HasLinkTo(links, target)
    ensures i >= 0 ==> links[i].linkTo == target && forall j :: 0 <= j < i ==> links[j].linkTo != target
  {
    if |links| == 0 then -1
    else if links[0].linkTo == target then 0
    else
      var k := FindIndex(links[1..], target);
      assert forall l :: l in links[1..] ==> l in links;
      assert forall l :: l in links && l != links[0] ==> l in links[1..];
      if k == -1 then -1 else k + 1
  }

  /** The list after adding a link to `target`, unless one to that target is already there. */
  function WithLink(links: Links, target: Pos, costMultiplier: real): Links
  {
    if HasLinkTo(links, target) then links else links + [NavigationPointLink(target, costMultiplier)]
  }

  /** The list after removing its first link to `target`, if it has one. */
  function WithoutLink(links: Links, target: Pos): Links
  {
    if |links| == 0 then []
    else if links[0].linkTo == target then links[1..]
    else [links[0]] + WithoutLink(links[1..], target)
  }

  /** Adding never duplicates a target, always leaves a link to it, and keeps an existing link's multiplier. */
  lemma WithLinkSpec(links: Links, target: Pos, costMultiplier: real)
    ensures HasLinkTo(WithLink(links, target, costMultiplier), target)
    ensures HasLinkTo(links, target) ==> WithLink(links, target, costMultiplier) == links
    ensures !HasLinkTo(links, target) ==>
      WithLink(links, target, costMultiplier) == links + [NavigationPointLink(target, costMultiplier)]
    ensures UniqueTargets(links) ==> UniqueTargets(WithLink(links, target, costMultiplier))
  {
    var r := WithLink(links, target, costMultiplier);
    assert r[|r| - 1] in r;
    if !HasLinkTo(links, target) && UniqueTargets(links) {
      forall i, j | 0 <= i < j < |r| ensures r[i].linkTo != r[j].linkTo {
        if j == |r| - 1 {
          assert r[i] == links[i] && links[i] in links;
        }
      }
    }
  }

  /** Removing the first link to `target` cuts that one element out of the list and keeps the rest in order. */
  lemma {:induction false} WithoutLinkAt(links: Links, target: Pos)
    requires FindIndex(links, target) >= 0
    ensures var i := FindIndex(links, target); WithoutLink(links, target) == links[..i] + links[i + 1..]
  {
    if links[0].linkTo != target {
      var tail := links[1..];
      var i := FindIndex(links, target);
      var k := FindIndex(tail, target);
      assert i == k + 1;
      WithoutLinkAt(tail, target);
      assert WithoutLink(links, target) == [links[0]] + WithoutLink(tail, target);
      assert tail[..k] == links[1..i] && tail[k + 1..] == links[i + 1..];
      assert [links[0]] + links[1..i] == links[..i];
    }
  }

  /** A list with no link to `target` is left as it is. */
  lemma {:induction false} WithoutLinkAbsent(links: Links, target: Pos)
    requires !HasLinkTo(links, target)
    ensures WithoutLink(links, target) == links
  {
    if |links| > 0 {
      assert links[0] in links;
      assert forall l :: l in links[1..] ==> l in links;
      WithoutLinkAbsent(links[1..], target);
    }
  }

  /** Removal shortens the list by one exactly when it had a link to `target`. */
  lemma WithoutLinkLength(links: Links, target: Pos)
    ensures |WithoutLink(links, target)| == if HasLinkTo(links, target) then |links| - 1 else |links|
  {
    if FindIndex(links, target) >= 0 {
      WithoutLinkAt(links, target);
    } else {
      WithoutLinkAbsent(links, target);
    }
  }

  /** The tail of a list with unique targets has unique targets, none of them the head's. */
  lemma UniqueTail(links: Links)
    requires UniqueTargets(links) && |links| > 0
    ensures UniqueTargets(links[1..])
    ensures forall l :: l in links[1..] ==> l.linkTo != links[0].linkTo
  {
    var tail := links[1..];
    forall i, j | 0 <= i < j < |tail| ensures tail[i].linkTo != tail[j].linkTo {
      assert tail[i] == links[i + 1] && tail[j] == links[j + 1];
    }
    forall l | l in tail ensures l.linkTo != links[0].linkTo {
      var j :| 0 <= j < |tail| && tail[j] == l;
      assert links[j + 1] == l;
    }
  }

  /**
   * On a list with unique targets, removal takes out exactly the link to `target`: afterwards no link goes
   * there, every other link is still present, nothing new appears and targets stay unique.
   */
  lemma {:induction false} WithoutLinkSpec(links: Links, target: Pos)
    requires UniqueTargets(links)
    ensures !HasLinkTo(WithoutLink(links, target), target)
    ensures forall l :: l in WithoutLink(links, target) <==> l in links && l.linkTo != target
    ensures UniqueTargets(WithoutLink(links, target))
    ensures |WithoutLink(links, target)| == if HasLinkTo(links, target) then |links| - 1 else |links|
  {
    WithoutLinkLength(links, target);
    if |links| > 0 {
      var tail := links[1..];
      UniqueTail(links);
      assert forall l :: l in links <==> l == links[0] || l in tail;
      WithoutLinkSpec(tail, target);
      var r := WithoutLink(links, target);
      var rt := WithoutLink(tail, target);
      if links[0].linkTo == target {
        assert r == tail;
      } else {
        assert r == [links[0]] + rt;
        forall i, j | 0 <= i < j < |r| ensures r[i].linkTo != r[j].linkTo {
          if i == 0 {
            assert r[j] == rt[j - 1] && rt[j - 1] in rt;
          } else {
            assert r[i] == rt[i - 1] && r[j] == rt[j - 1];
          }
        }
      }
    }
  }

  /** Every link list of the map keeps at most one link per target. */
  ghost predicate WellFormed(g: Graph)
  {
    forall p :: p in g ==> UniqueTargets(g[p])
  }

  /**
   * The map is an undirected weighted graph: every link targets a point of the map, and the target links
   * back with the same multiplier.
   */
  ghost predicate Undirected(g: Graph)
  {
    forall a, l :: a in g && l in g[a] ==>
      l.linkTo in g && NavigationPointLink(a, l.costMultiplier) in g[l.linkTo]
  }

  /** AddPoint on the abstract map. */
  function AddPointTo(g: Graph, position: Pos): Graph
  {
    if position in g then g else g[position := []]
  }

  /** AddPointLink on the abstract map: a->b first, then b->a on the updated map. */
  function AddLinkTo(g: Graph, a: Pos, b: Pos, costMultiplier: real): Graph
  {
    if a !in g || b !in g then g
    else
      var g1 := g[a := WithLink(g[a], b, costMultiplier)];
      g1[b := WithLink(g1[b], a, costMultiplier)]
  }

  /** RemovePoint on the abstract map: drop the key, then scrub links to it from every remaining point. */
  function RemovePointFrom(g: Graph, position: Pos): Graph
  {
    map p | p in g && p != position :: WithoutLink(g[p], position)
  }

  /** BreakPointLink on the abstract map: a->b first, then b->a on the updated map. */
  function BreakLinkIn(g: Graph, a: Pos, b: Pos): Graph
  {
    var g1 := if a in g then g[a := WithoutLink(g[a], b)] else g;
    if b in g1 then g1[b := WithoutLink(g1[b], a)] else g1
  }

  /** AddPoint adds exactly the new key with no links, or changes nothing when the key exists. */
  lemma AddPointSpec(g: Graph, position: Pos)
    ensures position in g ==> AddPointTo(g, position) == g
    ensures position !in g ==>
      && AddPointTo(g, position).Keys == g.Keys + {position}
      && AddPointTo(g, position)[position] == []
      && forall p :: p in g ==> AddPointTo(g, position)[p] == g[p]
    ensures WellFormed(g) ==> WellFormed(AddPointTo(g, position))
    ensures Undirected(g) ==> Undirected(AddPointTo(g, position))
  {
  }

  /**
   * AddPointLink links both ways when both points exist and changes nothing otherwise; it touches no other
   * point, never duplicates a link and keeps an existing link's multiplier.
   */
  lemma AddLinkSpec(g: Graph, a: Pos, b: Pos, costMultiplier: real)
    requires WellFormed(g)
    ensures var r := AddLinkTo(g, a, b, costMultiplier);
      && r.Keys == g.Keys
      && (a !in g || b !in g ==> r == g)
      && (a in g && b in g ==> HasLinkTo(r[a], b) && HasLinkTo(r[b], a))
      && (a in g && HasLinkTo(g[a], b) ==> r[a] == g[a])
      && (b in g && HasLinkTo(g[b], a) ==> r[b] == g[b])
      && (a in g && b in g && a != b && !HasLinkTo(g[a], b) ==> r[a] == g[a] + [NavigationPointLink(b, costMultiplier)])
      && (a in g && b in g && a != b && !HasLinkTo(g[b], a) ==> r[b] == g[b] + [NavigationPointLink(a, costMultiplier)])
      && (a in g && a == b && !HasLinkTo(g[a], a) ==> r[a] == g[a] + [NavigationPointLink(a, costMultiplier)])
      && (forall p :: p in g && p != a && p != b ==> r[p] == g[p])
      && (forall p, l :: p in g && l in g[p] ==> l in r[p])
      && WellFormed(r)
  {
    if a in g && b in g {
      var g1 := g[a := WithLink(g[a], b, costMultiplier)];
      WithLinkSpec(g[a], b, costMultiplier);
      WithLinkSpec(g1[b], a, costMultiplier);
    }
  }

  /** Repeating AddPointLink on the same pair changes nothing, whatever multiplier the repeat passes. */
  lemma AddLinkIdempotent(g: Graph, a: Pos, b: Pos, costMultiplier: real, again: real)
    requires WellFormed(g)
    ensures AddLinkTo(AddLinkTo(g, a, b, costMultiplier), a, b, again) == AddLinkTo(g, a, b, costMultiplier)
  {
    var r := AddLinkTo(g, a, b, costMultiplier);
    AddLinkSpec(g, a, b, costMultiplier);
    AddLinkSpec(r, a, b, again);
  }

  /** On an undirected map, AddPointLink either finds both directions already linked or adds both. */
  lemma AddLinkUndirected(g: Graph, a: Pos, b: Pos, costMultiplier: real)
    requires WellFormed(g) && Undirected(g)
    ensures Undirected(AddLinkTo(g, a, b, costMultiplier))
  {
    var r := AddLinkTo(g, a, b, costMultiplier);
    AddLinkSpec(g, a, b, costMultiplier);
    if a in g && b in g {
      if HasLinkTo(g[a], b) {
        var l :| l in g[a] && l.linkTo == b;
        assert NavigationPointLink(a, l.costMultiplier) in g[b];
        assert r == g;
      } else {
        assert !HasLinkTo(g[b], a) by {
          forall l | l in g[b] ensures l.linkTo != a {
            assert NavigationPointLink(b, l.costMultiplier) in g[l.linkTo];
          }
        }
        var la := NavigationPointLink(b, costMultiplier);
        var lb := NavigationPointLink(a, costMultiplier);
        var g1 := g[a := g[a] + [la]];
        WithLinkSpec(g[a], b, costMultiplier);
        assert r[a] == g[a] + [la] by {
          if a == b {
            assert la in g1[b];
            WithLinkSpec(g1[b], a, costMultiplier);
          }
        }
        assert a != b ==> r[b] == g[b] + [lb] by {
          WithLinkSpec(g[b], a, costMultiplier);
        }
        forall x, l: NavigationPointLink | x in r && l in r[x]
          ensures l.linkTo in r && NavigationPointLink(x, l.costMultiplier) in r[l.linkTo]
        {
          if l !in g[x] {
            assert x == a || x == b;
            if x == a {
              assert l == la;
            } else {
              assert l == lb;
            }
          }
        }
      }
    }
  }

  /**
   * RemovePoint leaves the key gone, every other key in place, no link anywhere targeting the removed point
   * and every other link where it was; an undirected map stays undirected, and removing a missing point
   * from an undirected map changes nothing.
   */
  lemma RemovePointSpec(g: Graph, position: Pos)
    requires WellFormed(g)
    ensures var r := RemovePointFrom(g, position);
      && r.Keys == g.Keys - {position}
      && (forall p :: p in r ==> !HasLinkTo(r[p], position))
      && (forall p, l :: p in r ==> (l in r[p] <==> l in g[p] && l.linkTo != position))
      && WellFormed(r)
      && (Undirected(g) ==> Undirected(r))
      && (Undirected(g) && position !in g ==> r == g)
  {
    var r := RemovePointFrom(g, position);
    forall p | p in r
      ensures !HasLinkTo(r[p], position) && UniqueTargets(r[p])
      ensures forall l :: l in r[p] <==> l in g[p] && l.linkTo != position
    {
      WithoutLinkSpec(g[p], position);
    }
    if Undirected(g) && position !in g {
      forall p | p in g ensures r[p] == g[p] {
        assert !HasLinkTo(g[p], position) by {
          forall l | l in g[p] ensures l.linkTo != position {
            assert l.linkTo in g;
          }
        }
        WithoutLinkAbsent(g[p], position);
      }
    }
  }

  /**
   * BreakPointLink leaves no a->b and no b->a link, keeps every key, every other point and every other link,
   * changes nothing when neither point exists, and keeps the map undirected.
   */
  lemma BreakLinkSpec(g: Graph, a: Pos, b: Pos)
    requires WellFormed(g)
    ensures var r := BreakLinkIn(g, a, b);
      && r.Keys == g.Keys
      && (a in r ==> !HasLinkTo(r[a], b))
      && (b in r ==> !HasLinkTo(r[b], a))
      && (forall p :: p in g && p != a && p != b ==> r[p] == g[p])
      && (forall l :: a in g ==> (l in r[a] <==> l in g[a] && l.linkTo != b))
      && (forall l :: b in g ==> (l in r[b] <==> l in g[b] && l.linkTo != a))
      && (a !in g && b !in g ==> r == g)
      && WellFormed(r)
      && (Undirected(g) ==> Undirected(r))
  {
    var g1 := if a in g then g[a := WithoutLink(g[a], b)] else g;
    if a in g { WithoutLinkSpec(g[a], b); }
    assert WellFormed(g1);
    if b in g1 { WithoutLinkSpec(g1[b], a); }
  }

  /** The corner values of the rectangle-with-layers the points occupy. */
  datatype Box = Box(minX: int, minY: int, minLayer: int, maxX: int, maxY: int, maxLayer: int)

  /** Every key lies within the bounds. */
  ghost predicate Encloses(b: Box, keys: set<Pos>)
  {
    forall p :: p in keys ==>
      b.minX <= p.x <= b.maxX && b.minY <= p.y <= b.maxY && b.minLayer <= p.layer <= b.maxLayer
  }

  /** Every bound is reached by some key. */
  ghost predicate Attained(b: Box, keys: set<Pos>)
  {
    (exists p :: p in keys && p.x == b.minX) && (exists p :: p in keys && p.x == b.maxX) &&
    (exists p :: p in keys && p.y == b.minY) && (exists p :: p in keys && p.y == b.maxY) &&
    (exists p :: p in keys && p.layer == b.minLayer) && (exists p :: p in keys && p.layer == b.maxLayer)
  }

  /** Some key minimises the coordinate `f`. */
  lemma {:induction false} LeastKey(keys: set<Pos>, f: Pos -> int) returns (p: Pos)
    requires keys != {}
    ensures p in keys && forall q :: q in keys ==> f(p) <= f(q)
  {
    var k :| k in keys;
    if keys == {k} {
      p := k;
    } else {
      var p' := LeastKey(keys - {k}, f);
      p := if f(k) < f(p') then k else p';
      forall q | q in keys ensures f(p) <= f(q) {
        if q != k { assert q in keys - {k}; }
      }
    }
  }

  /** Some key maximises the coordinate `f`. */
  lemma {:induction false} GreatestKey(keys: set<Pos>, f: Pos -> int) returns (p: Pos)
    requires keys != {}
    ensures p in keys && forall q :: q in keys ==> f(q) <= f(p)
  {
    var k :| k in keys;
    if keys == {k} {
      p := k;
    } else {
      var p' := GreatestKey(keys - {k}, f);
      p := if f(k) > f(p') then k else p';
      forall q | q in keys ensures f(q) <= f(p) {
        if q != k { assert q in keys - {k}; }
      }
    }
  }

  lemma LeastKeyExists(keys: set<Pos>, f: Pos -> int)
    requires keys != {}
    ensures exists p :: p in keys && forall q :: q in keys ==> f(p) <= f(q)
  {
    var p := LeastKey(keys, f);
  }

  lemma GreatestKeyExists(keys: set<Pos>, f: Pos -> int)
    requires keys != {}
    ensures exists p :: p in keys && forall q :: q in keys ==> f(q) <= f(p)
  {
    var p := GreatestKey(keys, f);
  }

  /** `Enumerable.Min(f)` over a non-empty key set. */
  function MinOver(keys: set<Pos>, f: Pos -> int): (m: int)
    requires keys != {}
    ensures (exists p :: p in keys && f(p) == m) && forall q :: q in keys ==> m <= f(q)
  {
    LeastKeyExists(keys, f);
    var p :| p in keys && forall q :: q in keys ==> f(p) <= f(q);
    f(p)
  }

  /** `Enumerable.Max(f)` over a non-empty key set. */
  function MaxOver(keys: set<Pos>, f: Pos -> int): (m: int)
    requires keys != {}
    ensures (exists p :: p in keys && f(p) == m) && forall q :: q in keys ==> f(q) <= m
  {
    GreatestKeyExists(keys, f);
    var p :| p in keys && forall q :: q in keys ==> f(q) <= f(p);
    f(p)
  }

  /** A navigation point: its position and its links, which AddLink and BreakLink change in place. */
  class NavigationPoint {
    const position: Pos
    var links: Links

    constructor (position: Pos, links: Links)
      ensures this.position == position && this.links == links
    {
      this.position := position;
      this.links := links;
    }

    /** Adds a link to `linkTo` unless the point already has one, whose multiplier is then kept. */
    method AddLink(linkTo: Pos, costMultiplier: real)
      modifies this
      ensures links == WithLink(old(links), linkTo, costMultiplier)
    {
      if FindIndex(links, linkTo) > -1 {
        return;
      }
      links := links + [NavigationPointLink(linkTo, costMultiplier)];
    }

    /** Removes the first link to `linkToBreak`, keeping the others in order; no-op when there is none. */
    method BreakLink(linkToBreak: Pos)
      modifies this
      ensures links == WithoutLink(old(links), linkToBreak)
    {
      var i := FindIndex(links, linkToBreak);
      if i == -1 {
        WithoutLinkAbsent(links, linkToBreak);
        return;
      }
      WithoutLinkAt(links, linkToBreak);
      links := links[..i] + links[i + 1..];
    }
  }

  /** Representation of a map of points and the links between them. */
  class NavigationMap {
    var points: map<Pos, NavigationPoint>

    /** Each key holds its own point object, positioned at the key, with unique link targets. */
    ghost predicate Valid()
      reads this, points.Values
    {
      && (forall p :: p in points ==> points[p].position == p)
      && (forall p, q :: p in points && q in points && p != q ==> points[p] != points[q])
      && WellFormed(Model())
    }

    /** The abstract map the points stand for. */
    ghost function Model(): Graph
      reads this, points.Values
    {
      map p | p in points :: points[p].links
    }

    constructor ()
      ensures Valid() && Model() == map[]
    {
      points := map[];
    }

    /** The clone constructor: a deep copy, with a fresh point and its own link list for every key. */
    constructor Clone(cloneFrom: NavigationMap)
      requires cloneFrom.Valid()
      ensures Valid() && Model() == cloneFrom.Model()
      ensures forall p :: p in points ==> fresh(points[p])
      ensures points.Values !! cloneFrom.points.Values
    {
      var copied: map<Pos, NavigationPoint> := map[];
      var todo := cloneFrom.points.Keys;
      while todo != {}
        invariant todo <= cloneFrom.points.Keys
        invariant copied.Keys == cloneFrom.points.Keys - todo
        invariant forall p :: p in copied ==>
          fresh(copied[p]) && copied[p].position == p && copied[p].links == cloneFrom.points[p].links
        invariant forall p, q :: p in copied && q in copied && p != q ==> copied[p] != copied[q]
        decreases todo
      {
        var key :| key in todo;
        var newPoint := new NavigationPoint(key, cloneFrom.points[key].links);
        copied := copied[key := newPoint];
        todo := todo - {key};
      }
      points := copied;
      new;
      assert Model() == cloneFrom.Model() by {
        assert Model().Keys == cloneFrom.Model().Keys;
      }
    }

    /** Drops every point. */
    method Reset()
      modifies this
      ensures Valid() && Model() == map[]
    {
      points := map[];
    }

    /** True if the point at `position` exists. */
    predicate HasPoint(position: Pos)
      reads this, points.Values
      ensures HasPoint(position) <==> position in Model()
    {
      position in points
    }

    /** Adds a point with no links; returns false, changing nothing, when it already exists. */
    method AddPoint(position: Pos) returns (added: bool)
      requires Valid()
      modifies this
      ensures Valid()
      ensures added <==> position !in old(Model())
      ensures Model() == AddPointTo(old(Model()), position)
      ensures fresh(points.Values - old(points.Values))
    {
      if HasPoint(position) {
        return false;
      }
      var point := new NavigationPoint(position, []);
      points := points[position := point];
      assert Model() == old(Model())[position := []];
      return true;
    }

    /** `points[key].AddLink(linkTo, costMultiplier)`: one direction of a link, added to the stored point's list. */
    method AddLinkFrom(key: Pos, linkTo: Pos, costMultiplier: real)
      requires Valid() && key in points
      modifies points[key]
      ensures Valid() && points == old(points)
      ensures Model() == old(Model())[key := WithLink(old(Model())[key], linkTo, costMultiplier)]
    {
      ghost var g1 := old(Model())[key := WithLink(old(Model())[key], linkTo, costMultiplier)];
      var point := points[key];
      point.AddLink(linkTo, costMultiplier);
      forall p | p in points ensures points[p].links == g1[p] {
        if p != key { assert points[p] != point; }
      }
      assert Model() == g1;
      WithLinkSpec(old(Model())[key], linkTo, costMultiplier);
    }

    /** Links both points to each other; returns false, changing nothing, unless both exist. */
    method AddPointLink(pointA: Pos, pointB: Pos, costMultiplier: real := 1.0) returns (linked: bool)
      requires Valid()
      modifies points.Values
      ensures Valid() && points == old(points)
      ensures linked <==> pointA in old(Model()) && pointB in old(Model())
      ensures Model() == AddLinkTo(old(Model()), pointA, pointB, costMultiplier)
      ensures Undirected(old(Model())) ==> Undirected(Model())
    {
      if !HasPoint(pointA) || !HasPoint(pointB) {
        return false;
      }
      AddLinkSpec(old(Model()), pointA, pointB, costMultiplier);
      if Undirected(old(Model())) {
        AddLinkUndirected(old(Model()), pointA, pointB, costMultiplier);
      }
      AddLinkFrom(pointA, pointB, costMultiplier);
      AddLinkFrom(pointB, pointA, costMultiplier);
      return true;
    }

    /** Removes the point and breaks every link to it; no-op for the key when it is absent. */
    method RemovePoint(position: Pos)
      requires Valid()
      modifies this, points.Values
      ensures Valid() && points.Values <= old(points.Values)
      ensures Model() == RemovePointFrom(old(Model()), position)
      ensures Undirected(old(Model())) ==> Undirected(Model())
    {
      RemovePointSpec(old(Model()), position);
      points := points - {position};
      var todo := points.Keys;
      while todo != {}
        invariant points == old(points) - {position}
        invariant todo <= points.Keys
        invariant forall p :: p in points ==>
          points[p].links == if p in todo then old(points[p].links) else WithoutLink(old(points[p].links), position)
        decreases todo
      {
        var key :| key in todo;
        points[key].BreakLink(position);
        todo := todo - {key};
      }
      assert Model() == RemovePointFrom(old(Model()), position);
    }

    /** `points[key].BreakLink(linkTo)`: one direction of a link, broken in the stored point's list. */
    method BreakLinkFrom(key: Pos, linkTo: Pos)
      requires Valid() && key in points
      modifies points[key]
      ensures Valid() && points == old(points)
      ensures Model() == old(Model())[key := WithoutLink(old(Model())[key], linkTo)]
    {
      ghost var g1 := old(Model())[key := WithoutLink(old(Model())[key], linkTo)];
      var point := points[key];
      point.BreakLink(linkTo);
      forall p | p in points ensures points[p].links == g1[p] {
        if p != key { assert points[p] != point; }
      }
      assert Model() == g1;
      WithoutLinkSpec(old(Model())[key], linkTo);
    }

    /** Breaks the link between the two points in both directions; each missing point or link is skipped. */
    method BreakPointLink(pointA: Pos, pointB: Pos)
      requires Valid()
      modifies points.Values
      ensures Valid() && points == old(points)
      ensures Model() == BreakLinkIn(old(Model()), pointA, pointB)
      ensures Undirected(old(Model())) ==> Undirected(Model())
    {
      BreakLinkSpec(old(Model()), pointA, pointB);
      if HasPoint(pointA) {
        BreakLinkFrom(pointA, pointB);
      }
      if HasPoint(pointB) {
        BreakLinkFrom(pointB, pointA);
      }
    }

    /** The least and greatest X, Y and Layer over the keys; None where the source's Min/Max throw on no keys. */
    function Bounds(): (b: Option<Box>)
      reads this
      ensures b.None? <==> points == map[]
      ensures b.Some? ==>
        b.value.minX <= b.value.maxX && b.value.minY <= b.value.maxY && b.value.minLayer <= b.value.maxLayer
      ensures b.Some? ==> Encloses(b.value, points.Keys) && Attained(b.value, points.Keys)
    {
      if points == map[] then None
      else
        var keys := points.Keys;
        Some(Box(MinOver(keys, (p: Pos) => p.x), MinOver(keys, (p: Pos) => p.y), MinOver(keys, (p: Pos) => p.layer),
                 MaxOver(keys, (p: Pos) => p.x), MaxOver(keys, (p: Pos) => p.y), MaxOver(keys, (p: Pos) => p.layer)))
    }

    /** Adding a map on top of this one is not implemented: it changes nothing and reports success. */
    method SuperimposeNavigationMap(navMap: NavigationMap, position: Pos, direction: Directions.EightDirection)
      returns (ok: bool)
      ensures ok
    {
      return true;
    }
  }
}
