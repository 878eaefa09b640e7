/**
 Whole runs of mapPages: any sequence of requests, what the resulting tables translate, and how many pages of the
 stack they take.
 */
module Runs {
  import opened Machine
  import opened PageTables
  import opened Paging

  datatype Request = Request(phys: Word, virt: Word) {
    function Page(): Vpn { VpnOfAddress(virt) }
    function Target(): Frame { FrameOfAddress(phys) }
  }

  function MapAll(s: Pager, root: Frame, reqs: seq<Request>): (r: Pager)
    requires s.Valid()
    ensures r.Valid() && r.next + r.pages == s.next + s.pages && (s.exhausted ==> r.exhausted)
  {
    if reqs == [] then s
    else
      var last := reqs[|reqs| - 1];
      MapPage(MapAll(s, root, reqs[..|reqs| - 1]), root, last.phys, last.virt)
  }

  lemma {:induction false} MapAllAppend(s: Pager, root: Frame, a: seq<Request>, b: seq<Request>)
    requires s.Valid()
    ensures MapAll(s, root, a + b) == MapAll(MapAll(s, root, a), root, b)
    decreases |b|
  {
    if b == [] {
      assert a + b == a;
    } else {
      assert (a + b)[..|a + b| - 1] == a + b[..|b| - 1];
      MapAllAppend(s, root, a, b[..|b| - 1]);
    }
  }

  /** The finite map after the requests: each overwrites what its page was mapped to before. */
  function Overwrite(view: map<Vpn, Frame>, reqs: seq<Request>): map<Vpn, Frame> {
    if reqs == [] then view
    else
      var last := reqs[|reqs| - 1];
      Overwrite(view, reqs[..|reqs| - 1])[last.Page() := last.Target()]
  }

  ghost function Pages(reqs: seq<Request>): set<Vpn> {
    set q | q in reqs :: q.Page()
  }

  lemma PagesLast(reqs: seq<Request>)
    requires reqs != []
    ensures Pages(reqs) == Pages(reqs[..|reqs| - 1]) + {reqs[|reqs| - 1].Page()}
  {
    assert reqs == reqs[..|reqs| - 1] + [reqs[|reqs| - 1]];
  }

  lemma {:induction false} OverwriteKeys(view: map<Vpn, Frame>, reqs: seq<Request>)
    ensures Overwrite(view, reqs).Keys == view.Keys + Pages(reqs)
  {
    if reqs != [] {
      OverwriteKeys(view, reqs[..|reqs| - 1]);
      PagesLast(reqs);
    }
  }

  /** How many tables the requests add to those of a map with the given pages. */
  ghost function Need(vpns: set<Vpn>, reqs: seq<Request>): int {
    |Tables(vpns + Pages(reqs))| - |Tables(vpns)|
  }

  /**
   Any run of mapPages refines the corresponding run of map updates, takes exactly one page per 9-, 18- or 27-bit
   prefix not seen before, and meets a NULL from allocatePage if and only if the stack does not hold one page more
   than that.
   */
  lemma {:induction false} MapAllRefines(s: Pager, root: Frame, view: map<Vpn, Frame>, reqs: seq<Request>)
    requires Represents(s, root, view)
    ensures Need(view.Keys, reqs) >= 0
    ensures var s' := MapAll(s, root, reqs);
            && (s.pages > Need(view.Keys, reqs) ==>
                && Represents(s', root, Overwrite(view, reqs))
                && s'.next == s.next + Need(view.Keys, reqs)
                && s'.exhausted == s.exhausted)
            && (s.pages <= Need(view.Keys, reqs) ==> s'.exhausted)
    decreases |reqs|
  {
    hide Represents, MapPage, Tables, Missing;
    if reqs == [] {
      assert view.Keys + Pages(reqs) == view.Keys;
    } else {
      var front, last := reqs[..|reqs| - 1], reqs[|reqs| - 1];
      MapAllRefines(s, root, view, front);
      OverwriteKeys(view, front);
      PagesLast(reqs);
      var view' := Overwrite(view, front);
      assert view.Keys + Pages(reqs) == view'.Keys + {last.Page()};
      TablesStep(view'.Keys, last.Page());
      if s.pages > Need(view.Keys, front) {
        MapPageRefines(MapAll(s, root, front), root, view', last.phys, last.virt);
      }
    }
  }

  /** Pages that no request names keep their old translation. */
  lemma {:induction false} OverwriteUntouched(view: map<Vpn, Frame>, reqs: seq<Request>, v: Vpn)
    requires v !in Pages(reqs)
    ensures Lookup(Overwrite(view, reqs), v) == Lookup(view, v)
  {
    if reqs != [] {
      PagesLast(reqs);
      OverwriteUntouched(view, reqs[..|reqs| - 1], v);
    }
  }

  /** The last request for a page wins. */
  lemma {:induction false} LastWriterWins(view: map<Vpn, Frame>, reqs: seq<Request>, i: nat)
    requires i < |reqs|
    requires forall j :: i < j < |reqs| ==> reqs[j].Page() != reqs[i].Page()
    ensures Lookup(Overwrite(view, reqs), reqs[i].Page()) == Some(reqs[i].Target())
    decreases |reqs|
  {
    if i < |reqs| - 1 {
      LastWriterWins(view, reqs[..|reqs| - 1], i);
    }
  }

  lemma {:induction false} LastRequest(reqs: seq<Request>, i: nat) returns (k: nat)
    requires i < |reqs|
    ensures i <= k < |reqs| && reqs[k].Page() == reqs[i].Page()
    ensures forall j :: k < j < |reqs| ==> reqs[j].Page() != reqs[k].Page()
    decreases |reqs| - i
  {
    if j :| i < j < |reqs| && reqs[j].Page() == reqs[i].Page() {
      k := LastRequest(reqs, j);
    } else {
      k := i;
    }
  }

  /** No page is requested with two different frames. */
  ghost predicate NoConflict(reqs: seq<Request>) {
    forall i, j :: 0 <= i < |reqs| && 0 <= j < |reqs| && reqs[i].Page() == reqs[j].Page() ==> reqs[i].Target() == reqs[j].Target()
  }

  /** The map does what every single request asked for. */
  ghost predicate Honoured(view: map<Vpn, Frame>, reqs: seq<Request>) {
    forall i :: 0 <= i < |reqs| ==> Lookup(view, reqs[i].Page()) == Some(reqs[i].Target())
  }

  /** Every request is honoured in the end exactly when no two requests disagree about a page. */
  lemma {:induction false} HonouredIffNoConflict(view: map<Vpn, Frame>, reqs: seq<Request>)
    ensures Honoured(Overwrite(view, reqs), reqs) <==> NoConflict(reqs)
  {
    if NoConflict(reqs) {
      forall i | 0 <= i < |reqs|
        ensures Lookup(Overwrite(view, reqs), reqs[i].Page()) == Some(reqs[i].Target())
      {
        var k := LastRequest(reqs, i);
        LastWriterWins(view, reqs, k);
      }
    }
  }
}
