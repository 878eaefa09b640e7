/** LibReinstallProtocolInterfaces: when its undo, in the order of the list, restores the interfaces. */
module ProtocolReinstall {
  import opened Protocols

  datatype Exchange = Exchange(protocol: Guid, was: Interface, now: Interface) {
    function Back(): Exchange {
      Exchange(protocol, now, was)
    }
  }

  predicate Applies(m: Interfaces, e: Exchange) {
    e.protocol in m && m[e.protocol] == e.was
  }

  /** One call: an exchange that does not apply changes nothing. */
  function Exchanged(m: Interfaces, e: Exchange): (r: Interfaces)
    ensures r.Keys == m.Keys
  {
    if Applies(m, e) then m[e.protocol := e.now] else m
  }

  function Run(m: Interfaces, es: seq<Exchange>): Interfaces {
    if es == [] then m else Run(Exchanged(m, es[0]), es[1..])
  }

  predicate AllApply(m: Interfaces, es: seq<Exchange>) {
    es == [] || (Applies(m, es[0]) && AllApply(Exchanged(m, es[0]), es[1..]))
  }

  function Backwards(es: seq<Exchange>): (r: seq<Exchange>)
    ensures |r| == |es| && forall k :: 0 <= k < |es| ==> r[k] == es[k].Back()
  {
    seq(|es|, k requires 0 <= k < |es| => es[k].Back())
  }

  lemma {:induction false} RunAppend(m: Interfaces, a: seq<Exchange>, b: seq<Exchange>)
    ensures Run(m, a + b) == Run(Run(m, a), b)
    ensures AllApply(m, a + b) <==> AllApply(m, a) && AllApply(Run(m, a), b)
    decreases |a|
  {
    if a == [] {
      assert a + b == b;
    } else {
      assert (a + b)[1..] == a[1..] + b;
      RunAppend(Exchanged(m, a[0]), a[1..], b);
    }
  }

  lemma RunMore(m: Interfaces, es: seq<Exchange>, k: nat)
    requires k < |es|
    ensures Run(m, es[..k + 1]) == Exchanged(Run(m, es[..k]), es[k])
    ensures AllApply(m, es[..k + 1]) <==> AllApply(m, es[..k]) && Applies(Run(m, es[..k]), es[k])
  {
    assert es[..k + 1] == es[..k] + [es[k]] && [es[k]][1..] == [];
    RunAppend(m, es[..k], [es[k]]);
  }

  lemma Same(db: Database, h: Handle, m: Interfaces)
    requires Sound(db) && m.Keys == On(db, h).Keys && h !in db
    ensures m == map[] && Put(db, h, m) == db
  {
    assert m.Keys == {};
    PutOn(db, h);
  }

  lemma {:induction false} RunKeys(m: Interfaces, es: seq<Exchange>)
    ensures Run(m, es).Keys == m.Keys
    decreases |es|
  {
    if es != [] {
      RunKeys(Exchanged(m, es[0]), es[1..]);
    }
  }

  /** The calls for the exchanges, none of them refused. */
  function Reinstalls(handle: Handle, es: seq<Exchange>): (r: seq<Call>)
    ensures |r| == |es|
  {
    seq(|es|, k requires 0 <= k < |es| => Reinstalling(16, handle, es[k].protocol, es[k].was, es[k].now, false))
  }

  lemma ReinstallsMore(handle: Handle, es: seq<Exchange>, k: nat)
    requires k < |es|
    ensures Reinstalls(handle, es[..k + 1])
         == Reinstalls(handle, es[..k]) + [Reinstalling(16, handle, es[k].protocol, es[k].was, es[k].now, false)]
  {
  }

  /** The undo loop. */
  method UndoReinstall(bs: BootServices, handle: Handle, es: seq<Exchange>)
    requires Sound(bs.database) && bs.tpl == TPL_NOTIFY
    modifies bs`database, bs`calls
    ensures Sound(bs.database)
    ensures bs.database == Put(old(bs.database), handle, Run(On(old(bs.database), handle), Backwards(es)))
    ensures bs.calls == old(bs.calls) + Reinstalls(handle, Backwards(es))
  {
    ghost var before, calls := bs.database, bs.calls;
    ghost var m, back := On(before, handle), Backwards(es);
    var index := |es|;
    PutOn(before, handle);
    hide Run, AllApply;
    RunNone(m, back[..0]);
    while index != 0
      invariant 0 <= index <= |es| && Sound(bs.database)
      invariant bs.database == Put(before, handle, Run(m, back[..|es| - index]))
      invariant bs.calls == calls + Reinstalls(handle, back)[..|es| - index]
      decreases index
    {
      ghost var k := |es| - index;
      RunMore(m, back, k);
      PutTwice(before, handle, Run(m, back[..k]), Run(m, back[..k + 1]));
      var e := es[|es| - index];
      var ok, refused := bs.ReinstallProtocolInterface(handle, e.protocol, e.now, e.was, false);
      index := index - 1;
    }
    assert back[..|es|] == back;
  }

  lemma RunNone(m: Interfaces, es: seq<Exchange>)
    requires |es| == 0
    ensures Run(m, es) == m && AllApply(m, es)
  {
  }

  /**
   The handle that reaches the firmware is the address of the caller's variable, not its value.  `done` is the number of
   calls that succeeded, and `refused` whether the firmware refused the one behind them.
   */
  method LibReinstallProtocolInterfaces(bs: BootServices, handle: HandleCell, es: seq<Exchange>)
    returns (ok: bool, ghost done: nat, ghost refused: bool)
    requires Sound(bs.database)
    modifies bs
    ensures Sound(bs.database) && bs.tpl == old(bs.tpl) && done <= |es|
    ensures AllApply(On(old(bs.database), handle.address), es[..done])
    ensures ok <==> !refused && AllApply(On(old(bs.database), handle.address), es)
    ensures ok ==> done == |es|
    ensures ok ==> bs.database == Put(old(bs.database), handle.address, Run(On(old(bs.database), handle.address), es))
    ensures ok ==> bs.calls == old(bs.calls) + Reinstalls(handle.address, es)
    ensures !ok ==> done < |es|
    ensures !ok ==> refused || !Applies(Run(On(old(bs.database), handle.address), es[..done]), es[done])
    ensures !ok ==> var m := On(old(bs.database), handle.address);
                    bs.database == Put(old(bs.database), handle.address, Run(Run(m, es[..done]), Backwards(es[..done])))
    ensures !ok ==> bs.calls == old(bs.calls) + Reinstalls(handle.address, es[..done])
                                + [Reinstalling(16, handle.address, es[done].protocol, es[done].was, es[done].now, refused)]
                                + Reinstalls(handle.address, Backwards(es[..done]))
    ensures handle.address !in old(bs.database) && es != [] ==> !ok && bs.database == old(bs.database)
  {
    ghost var before, calls := bs.database, bs.calls;
    ghost var m := On(before, handle.address);
    var oldTpl := bs.RaiseTPL(TPL_NOTIFY);
    var index := 0;
    ok, refused := true, false;
    PutOn(before, handle.address);
    hide Run, AllApply;
    RunNone(m, es[..0]);
    while ok && index < |es|
      invariant index <= |es| && Sound(bs.database) && AllApply(m, es[..index]) && bs.tpl == TPL_NOTIFY
      invariant bs.database == Put(before, handle.address, Run(m, es[..index]))
      invariant ok ==> !refused && bs.calls == calls + Reinstalls(handle.address, es[..index])
      invariant !ok ==> index < |es| && (refused || !Applies(Run(m, es[..index]), es[index]))
      invariant !ok ==> bs.calls == calls + Reinstalls(handle.address, es[..index])
                        + [Reinstalling(16, handle.address, es[index].protocol, es[index].was, es[index].now, refused)]
      decreases |es| - index, ok
    {
      RunMore(m, es, index);
      ReinstallsMore(handle.address, es, index);
      PutTwice(before, handle.address, Run(m, es[..index]), Run(m, es[..index + 1]));
      var e := es[index];
      ok, refused := bs.ReinstallProtocolInterface(handle.address, e.protocol, e.was, e.now, true);
      if ok {
        index := index + 1;
      }
    }
    done := index;
    assert es[..|es|] == es;
    if !ok {
      PutTwice(before, handle.address, Run(m, es[..index]), Run(Run(m, es[..index]), Backwards(es[..index])));
      UndoReinstall(bs, handle.address, es[..index]);
      if !refused {
        AppliesUpTo(m, es, index);
      }
    }
    if handle.address !in before && es != [] {
      NothingApplies(m, es, index);
      RunKeys(Run(m, es[..index]), Backwards(es[..index]));
      RunKeys(m, es[..index]);
      Same(before, handle.address, Run(Run(m, es[..index]), Backwards(es[..index])));
    }
    bs.RestoreTPL(oldTpl);
  }

  lemma AppliesUpTo(m: Interfaces, es: seq<Exchange>, k: nat)
    requires k < |es| && !Applies(Run(m, es[..k]), es[k])
    ensures !AllApply(m, es)
  {
    hide Run, AllApply;
    RunMore(m, es, k);
    assert es == es[..k + 1] + es[k + 1..];
    RunAppend(m, es[..k + 1], es[k + 1..]);
  }

  lemma NothingApplies(m: Interfaces, es: seq<Exchange>, k: nat)
    requires m == map[] && k <= |es| && AllApply(m, es[..k])
    ensures k == 0
  {
  }

  /** What the whole list makes of a handle. */
  function Outcome(db: Database, h: Handle, es: seq<Exchange>): Interfaces {
    Run(On(db, h), es)
  }

  /**
   Exchanging on the handle number that is passed, the address of the variable, is exchanging on the handle in the variable
   exactly when the two are the same number or the list changes neither.
   */
  lemma ActsAsMeantIff(db: Database, address: Handle, value: Handle, es: seq<Exchange>)
    requires Sound(db)
    ensures Put(db, address, Outcome(db, address, es)) == Put(db, value, Outcome(db, value, es))
       <==> address == value || (Outcome(db, address, es) == On(db, address) && Outcome(db, value, es) == On(db, value))
  {
    hide Run, Put;
    PutTwice(db, address, Outcome(db, address, es), On(db, address));
    PutTwice(db, value, Outcome(db, value, es), On(db, value));
    PutOn(db, address);
    PutOn(db, value);
  }

  // ---------- when the undo restores

  ghost predicate Distinct(es: seq<Exchange>) {
    forall j, k :: 0 <= j < k < |es| ==> es[j].protocol != es[k].protocol
  }

  /** Exchanges of other protocols leave an interface alone, and do not notice a change of it. */
  lemma {:induction false} RunElsewhere(m: Interfaces, es: seq<Exchange>, p: Guid, v: Interface)
    requires p in m && forall k :: 0 <= k < |es| ==> es[k].protocol != p
    ensures p in Run(m, es) && Run(m, es)[p] == m[p]
    ensures Run(m[p := v], es) == Run(m, es)[p := v]
    ensures AllApply(m[p := v], es) == AllApply(m, es)
    decreases |es|
  {
    if es != [] {
      assert Exchanged(m[p := v], es[0]) == Exchanged(m, es[0])[p := v];
      RunElsewhere(Exchanged(m, es[0]), es[1..], p, v);
    }
  }

  /** With different protocols, undoing in the order of the list restores every interface. */
  lemma {:induction false} DistinctRestores(m: Interfaces, es: seq<Exchange>)
    requires AllApply(m, es) && Distinct(es)
    ensures Run(Run(m, es), Backwards(es)) == m
    decreases |es|
  {
    if es != [] {
      var e, rest := es[0], es[1..];
      var m1 := Exchanged(m, e);
      RunElsewhere(m1, rest, e.protocol, e.was);
      assert m1[e.protocol := e.was] == m;
      assert Exchanged(Run(m1, rest), e.Back()) == Run(m, rest);
      assert Backwards(es)[1..] == Backwards(rest);
      DistinctRestores(m, rest);
    }
  }

  function Reversed(es: seq<Exchange>): seq<Exchange> {
    if es == [] then [] else Reversed(es[1..]) + [es[0]]
  }

  /** Undoing in the opposite order would restore every interface, whatever the list. */
  lemma {:induction false} ReverseRestores(m: Interfaces, es: seq<Exchange>)
    requires AllApply(m, es)
    ensures Run(Run(m, es), Reversed(Backwards(es))) == m
    decreases |es|
  {
    if es != [] {
      var e, rest := es[0], es[1..];
      assert Backwards(es)[1..] == Backwards(rest);
      ReverseRestores(Exchanged(m, e), rest);
      RunAppend(Run(m, es), Reversed(Backwards(rest)), [e.Back()]);
      assert [e.Back()][1..] == [];
      assert Exchanged(m, e)[e.protocol := e.was] == m;
    }
  }

  /** No interface comes back: every new one differs from the first and from the other new ones of its protocol. */
  ghost predicate NoReuse(m: Interfaces, es: seq<Exchange>) {
    && (forall k :: 0 <= k < |es| ==> es[k].protocol in m && es[k].now != m[es[k].protocol])
    && (forall j, k :: 0 <= j < k < |es| && es[j].protocol == es[k].protocol ==> es[j].now != es[k].now)
  }

  /** An interface that no exchange of its protocol starts from stays. */
  lemma {:induction false} Stays(m: Interfaces, es: seq<Exchange>, p: Guid)
    requires p in m && forall k :: 0 <= k < |es| && es[k].protocol == p ==> es[k].was != m[p]
    ensures p in Run(m, es) && Run(m, es)[p] == m[p]
    decreases |es|
  {
    if es != [] {
      Stays(Exchanged(m, es[0]), es[1..], p);
    }
  }

  /** The interface behind a list of exchanges is the new one of the last exchange of the protocol. */
  lemma LastWins(m: Interfaces, es: seq<Exchange>, k: nat)
    requires k < |es| && AllApply(m, es) && forall j :: k < j < |es| ==> es[j].protocol != es[k].protocol
    ensures Applies(Run(m, es[..k]), es[k])
    ensures es[k].protocol in Run(m, es) && Run(m, es)[es[k].protocol] == es[k].now
  {
    hide Run, AllApply;
    Split(es, k);
    RunAppend(m, es[..k + 1], es[k + 1..]);
    RunMore(m, es, k);
    RunElsewhere(Run(m, es[..k + 1]), es[k + 1..], es[k].protocol, 0);
  }

  lemma Split(es: seq<Exchange>, k: nat)
    requires k < |es|
    ensures es == es[..k + 1] + es[k + 1..]
  {
  }

  /** The undo takes the last exchange of a protocol back, and no other. */
  lemma LastUndone(m: Interfaces, es: seq<Exchange>, k: nat)
    requires k < |es| && AllApply(m, es) && NoReuse(m, es)
    requires forall j :: k < j < |es| ==> es[j].protocol != es[k].protocol
    ensures var r := Run(Run(m, es), Backwards(es)); es[k].protocol in r && r[es[k].protocol] == es[k].was
  {
    hide Run, AllApply;
    var p, back, c := es[k].protocol, Backwards(es), Run(m, es);
    LastWins(m, es, k);
    Stays(c, back[..k], p);
    RunMore(c, back, k);
    Split(back, k);
    RunAppend(c, back[..k + 1], back[k + 1..]);
    RunElsewhere(Run(c, back[..k + 1]), back[k + 1..], p, 0);
  }

  /** The old interface of a later exchange is the new one of the exchange before it. */
  lemma OldIsNew(m: Interfaces, es: seq<Exchange>, i: nat, k: nat)
    requires i < k < |es| && AllApply(m, es) && es[i].protocol == es[k].protocol
    requires forall j :: i < j < k ==> es[j].protocol != es[k].protocol
    ensures es[k].was == es[i].now
  {
    hide Run, AllApply;
    assert es == es[..k] + es[k..];
    RunAppend(m, es[..k], es[k..]);
    LastWins(m, es[..k], i);
    assert es[..k][..i] == es[..i];
    RunMore(m, es, k);
    assert es == es[..k + 1] + es[k + 1..];
    RunAppend(m, es[..k + 1], es[k + 1..]);
  }

  function LastOf(es: seq<Exchange>, p: Guid, k: nat): (r: nat)
    requires k < |es| && es[k].protocol == p
    ensures k <= r < |es| && es[r].protocol == p
    ensures forall j :: r < j < |es| ==> es[j].protocol != p
    decreases |es| - k
  {
    if exists j :: k < j < |es| && es[j].protocol == p then LastOf(es, p, k + 1 + NextOf(es[k + 1..], p)) else k
  }

  function NextOf(es: seq<Exchange>, p: Guid): (r: nat)
    requires exists j :: 0 <= j < |es| && es[j].protocol == p
    ensures r < |es| && es[r].protocol == p
    ensures forall j :: 0 <= j < r ==> es[j].protocol != p
  {
    if es[0].protocol == p then 0 else 1 + NextOf(es[1..], p)
  }

  function PreviousOf(es: seq<Exchange>, p: Guid, k: nat): (r: nat)
    requires k <= |es| && exists j :: 0 <= j < k && es[j].protocol == p
    ensures r < k && es[r].protocol == p && forall j :: r < j < k ==> es[j].protocol != p
  {
    if es[k - 1].protocol == p then k - 1 else PreviousOf(es, p, k - 1)
  }

  /** When no interface is used twice, undoing in the order of the list restores exactly the lists of different protocols. */
  lemma RestoresIffDistinct(m: Interfaces, es: seq<Exchange>)
    requires AllApply(m, es) && NoReuse(m, es)
    ensures Run(Run(m, es), Backwards(es)) == m <==> Distinct(es)
  {
    hide Run, AllApply;
    if Distinct(es) {
      DistinctRestores(m, es);
    } else {
      var j, k :| 0 <= j < k < |es| && es[j].protocol == es[k].protocol;
      var p := es[k].protocol;
      var last := LastOf(es, p, k);
      var i := PreviousOf(es, p, last);
      OldIsNew(m, es, i, last);
      LastUndone(m, es, last);
    }
  }

  // ---------- the exact condition, for every list

  /** What the undo makes of an interface of the protocol: a walk through the arguments alone. */
  function Unwound(es: seq<Exchange>, p: Guid, v: Interface): Interface {
    if es == [] then v else Unwound(es[1..], p, if es[0].protocol == p && es[0].now == v then es[0].was else v)
  }

  lemma {:induction false} RunUnwinds(m: Interfaces, es: seq<Exchange>, p: Guid)
    requires p in m
    ensures p in Run(m, Backwards(es)) && Run(m, Backwards(es))[p] == Unwound(es, p, m[p])
    decreases |es|
  {
    if es != [] {
      assert Backwards(es)[1..] == Backwards(es[1..]);
      RunUnwinds(Exchanged(m, es[0].Back()), es[1..], p);
    }
  }

  /** Going through the arguments, the undo leads from each protocol's last new interface to its first old one. */
  ghost predicate Unwinds(es: seq<Exchange>) {
    forall i, k :: FirstAndLast(es, i, k) ==> Unwound(es, es[i].protocol, es[k].now) == es[i].was
  }

  /** i and k are the first and the last exchange of a protocol. */
  ghost predicate FirstAndLast(es: seq<Exchange>, i: int, k: int) {
    && 0 <= i <= k < |es| && es[i].protocol == es[k].protocol
    && (forall j :: 0 <= j < i ==> es[j].protocol != es[i].protocol)
    && (forall j :: k < j < |es| ==> es[j].protocol != es[i].protocol)
  }

  /** The first exchange of a protocol starts from the interface that is there. */
  lemma FirstIsOld(m: Interfaces, es: seq<Exchange>, i: nat)
    requires i < |es| && AllApply(m, es) && forall j :: 0 <= j < i ==> es[j].protocol != es[i].protocol
    ensures es[i].protocol in m && m[es[i].protocol] == es[i].was
  {
    hide Run, AllApply;
    Split(es, i);
    RunAppend(m, es[..i + 1], es[i + 1..]);
    RunMore(m, es, i);
    RunKeys(m, es[..i]);
    RunElsewhere(m, es[..i], es[i].protocol, 0);
  }

  /** The undo restores a protocol exactly when the arguments unwind for it. */
  lemma ProtocolRestoredIff(m: Interfaces, es: seq<Exchange>, i: nat, k: nat)
    requires AllApply(m, es) && FirstAndLast(es, i, k)
    ensures var p := es[i].protocol;
            && p in m && p in Run(Run(m, es), Backwards(es))
            && (Run(Run(m, es), Backwards(es))[p] == m[p] <==> Unwound(es, p, es[k].now) == es[i].was)
  {
    hide Run, AllApply, Unwound;
    FirstIsOld(m, es, i);
    LastWins(m, es, k);
    RunUnwinds(Run(m, es), es, es[i].protocol);
  }

  /** Protocols that the list does not name are not touched. */
  lemma UnnamedStays(m: Interfaces, es: seq<Exchange>, p: Guid)
    requires p in m && forall k :: 0 <= k < |es| ==> es[k].protocol != p
    ensures p in Run(Run(m, es), Backwards(es)) && Run(Run(m, es), Backwards(es))[p] == m[p]
  {
    RunElsewhere(m, es, p, 0);
    RunElsewhere(Run(m, es), Backwards(es), p, 0);
  }

  lemma FirstAndLastOf(es: seq<Exchange>, k: nat) returns (i: nat, l: nat)
    requires k < |es|
    ensures FirstAndLast(es, i, l) && es[i].protocol == es[k].protocol
  {
    i := NextOf(es, es[k].protocol);
    l := LastOf(es, es[k].protocol, k);
  }

  /** For every list: the undo in the order of the list restores every interface exactly when the arguments unwind. */
  lemma RestoresIff(m: Interfaces, es: seq<Exchange>)
    requires AllApply(m, es)
    ensures Run(Run(m, es), Backwards(es)) == m <==> Unwinds(es)
  {
    hide Run, AllApply, Unwound, FirstAndLast;
    var r := Run(Run(m, es), Backwards(es));
    RunKeys(m, es);
    RunKeys(Run(m, es), Backwards(es));
    forall i, k | FirstAndLast(es, i, k)
      ensures 0 <= i <= k < |es| && es[i].protocol in m && es[i].protocol in r
      ensures r[es[i].protocol] == m[es[i].protocol] <==> Unwound(es, es[i].protocol, es[k].now) == es[i].was
    {
      ProtocolBounds(es, i, k);
      ProtocolRestoredIff(m, es, i, k);
    }
    if Unwinds(es) {
      forall p | p in m
        ensures r[p] == m[p]
      {
        if k :| 0 <= k < |es| && es[k].protocol == p {
          var i, l := FirstAndLastOf(es, k);
        } else {
          UnnamedStays(m, es, p);
        }
      }
      assert r == m;
    }
  }

  lemma ProtocolBounds(es: seq<Exchange>, i: int, k: int)
    requires FirstAndLast(es, i, k)
    ensures 0 <= i <= k < |es|
  {
  }

  /** A failed call leaves the database as it was when the protocols of the list differ. */
  lemma FailureRestores(db: Database, h: Handle, es: seq<Exchange>, done: nat)
    requires Sound(db) && done <= |es| && AllApply(On(db, h), es[..done]) && Distinct(es)
    ensures Put(db, h, Run(Run(On(db, h), es[..done]), Backwards(es[..done]))) == db
  {
    hide Run, AllApply;
    DistinctRestores(On(db, h), es[..done]);
    PutOn(db, h);
  }

  /** Two exchanges of one protocol, undone in the order of the list: the second interface stays. */
  lemma RepeatedProtocolIsLost()
    ensures exists m: Interfaces, es: seq<Exchange> :: AllApply(m, es) && Run(Run(m, es), Backwards(es)) != m
  {
    var m: Interfaces := map[7 := 1];
    var es := [Exchange(7, 1, 2), Exchange(7, 2, 3)];
    assert Exchanged(m, es[0])[7] == 2 && es[1..][0] == es[1] && es[1..][1..] == [];
    assert AllApply(m, es);
    RestoresIffDistinct(m, es);
    assert es[0].protocol == es[1].protocol;
  }
}
