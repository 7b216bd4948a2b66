/**
 Which error encoding returns when several are possible: the one that comes first when the
 tables are descended depth first, each in the order of its items or keys.
 */
module JsonOrder {
  import opened Optional
  import opened JsonEncoder
  import opened JsonCycles

  // Descending from r, behind the tables of the path, through the values at these positions ends at a table that
  // cannot be encoded: one that has been descended through, or one with keys that cannot be written.
  ghost function Reason(g: Graph, r: Ref, path: set<Ref>, positions: seq<nat>, nkc: bool): Option<EncodeError>
    requires r in g
    decreases |positions|
  {
    var stuck := if r in path then Some(ChildOfItself)
                 else if Inconvertible(g[r], nkc) then Some(KeyError(nkc)) else None;
    if positions == [] then stuck
    else
      var cs, k := Children(g, r, nkc), positions[0];
      if stuck == None && k < |cs| && cs[k].LTable? && cs[k].ref in g then
        Reason(g, cs[k].ref, path + {r}, positions[1..], nkc)
      else None
  }

  // The order in which a depth-first descent comes to the places.
  predicate Before(p: seq<nat>, q: seq<nat>) {
    p != [] && q != [] && (p[0] < q[0] || (p[0] == q[0] && Before(p[1..], q[1..])))
  }

  lemma {:induction false} BeforeOneWay(p: seq<nat>, q: seq<nat>)
    requires Before(p, q)
    ensures !Before(q, p)
  {
    if p[0] == q[0] {
      BeforeOneWay(p[1..], q[1..]);
    }
  }

  // A place where encoding fails for a reason, and no other place where it would comes before it.
  ghost predicate FirstReason(g: Graph, r: Ref, path: set<Ref>, p: seq<nat>, nkc: bool, e: EncodeError)
    requires r in g
  {
    Reason(g, r, path, p, nkc) == Some(e) &&
    forall q :: Reason(g, r, path, q, nkc).Some? && q != p ==> Before(p, q)
  }

  lemma PositionSucceeds(g: Graph, r: Ref, path: set<Ref>, nkc: bool, k: nat)
    requires WellFormed(g) && r in g && Unfold(g, LTable(r), path, nkc).Ok?
    requires k < |Children(g, r, nkc)| && Children(g, r, nkc)[k].LTable? && Children(g, r, nkc)[k].ref in g
    ensures Unfold(g, Children(g, r, nkc)[k], path + {r}, nkc).Ok?
  {
    var cs := Children(g, r, nkc);
    ChildKnown(g, r, nkc, k);
    ChildSucceeds(g, r, path, nkc, cs[k].ref);
  }

  lemma {:induction false} NoReason(g: Graph, r: Ref, path: set<Ref>, nkc: bool, p: seq<nat>)
    requires WellFormed(g) && r in g && Unfold(g, LTable(r), path, nkc).Ok?
    ensures Reason(g, r, path, p, nkc) == None
    decreases |p|
  {
    ConvertibleExactly(g[r], nkc);
    hide ShapeOf, Inconvertible, UnfoldItems, UnfoldEntries, Children;
    if p != [] {
      var cs, k := Children(g, r, nkc), p[0];
      if k < |cs| && cs[k].LTable? && cs[k].ref in g {
        PositionSucceeds(g, r, path, nkc, k);
        NoReason(g, cs[k].ref, path + {r}, nkc, p[1..]);
      }
    }
  }

  lemma {:induction false} FailureHasFirstReason(g: Graph, r: Ref, path: set<Ref>, nkc: bool) returns (p: seq<nat>)
    requires WellFormed(g) && r in g && Unfold(g, LTable(r), path, nkc).Err?
    ensures FirstReason(g, r, path, p, nkc, Unfold(g, LTable(r), path, nkc).error)
    decreases |g.Keys - path|
  {
    ConvertibleExactly(g[r], nkc);
    hide ShapeOf, Inconvertible, UnfoldItems, UnfoldEntries, Children;
    if r in path || ShapeOf(g[r], nkc).Err? {
      p := [];
    } else {
      PathGrows(g, path, r);
      var k := ChildFails(g, r, path, nkc);
      var cs := Children(g, r, nkc);
      var rest := FailureHasFirstReason(g, cs[k].ref, path + {r}, nkc);
      p := [k] + rest;
      forall q | Reason(g, r, path, q, nkc).Some? && q != p
        ensures Before(p, q)
      {
        OthersComeLater(g, r, path, nkc, k, rest, q);
      }
    }
  }

  lemma OthersComeLater(g: Graph, r: Ref, path: set<Ref>, nkc: bool, k: nat, rest: seq<nat>, q: seq<nat>)
    requires WellFormed(g) && r in g && r !in path && !Inconvertible(g[r], nkc)
    requires var cs := Children(g, r, nkc);
             && k < |cs| && cs[k].LTable? && cs[k].ref in g
             && (forall j :: 0 <= j < k ==> Known(g, cs[j]) && Unfold(g, cs[j], path + {r}, nkc).Ok?)
             && exists e :: FirstReason(g, cs[k].ref, path + {r}, rest, nkc, e)
    requires Reason(g, r, path, q, nkc).Some? && q != [k] + rest
    ensures Before([k] + rest, q)
  {
    hide Inconvertible, Unfold, Children;
    var cs := Children(g, r, nkc);
    if q[0] < k {
      NoReason(g, cs[q[0]].ref, path + {r}, nkc, q[1..]);
    }
    assert q == [q[0]] + q[1..];
  }

  /** Encoding fails with an error exactly when that is the reason at the first place where it can fail. */
  lemma FirstReasonDecides(g: Graph, r: Ref, nkc: bool, e: EncodeError)
    requires WellFormed(g) && r in g
    ensures Unfold(g, LTable(r), {}, nkc) == Err(e) <==> exists p :: FirstReason(g, r, {}, p, nkc, e)
  {
    var u := Unfold(g, LTable(r), {}, nkc);
    hide Unfold, Reason, FirstReason;
    if u.Ok? {
      forall p
        ensures !FirstReason(g, r, {}, p, nkc, e)
      {
        NoReason(g, r, {}, nkc, p);
        NotFirst(g, r, nkc, p, e);
      }
    } else {
      var p := FailureHasFirstReason(g, r, {}, nkc);
      forall q | FirstReason(g, r, {}, q, nkc, e)
        ensures u == Err(e)
      {
        OnlyOneFirst(g, r, nkc, p, u.error, q, e);
      }
    }
  }

  lemma NotFirst(g: Graph, r: Ref, nkc: bool, p: seq<nat>, e: EncodeError)
    requires r in g && Reason(g, r, {}, p, nkc) == None
    ensures !FirstReason(g, r, {}, p, nkc, e)
  {
    hide Reason;
  }

  lemma OnlyOneFirst(g: Graph, r: Ref, nkc: bool, p: seq<nat>, e: EncodeError, q: seq<nat>, f: EncodeError)
    requires r in g && FirstReason(g, r, {}, p, nkc, e) && FirstReason(g, r, {}, q, nkc, f)
    ensures p == q && e == f
  {
    hide Reason;
    if p != q {
      BeforeOneWay(p, q);
    }
  }
}
