/** What single steps do to queues, cards and units, apart from how they are computed. */
module DiskLaws {
  import opened DiskSpec

  /** The queue of a drive. */
  function QueueOf(v: View, slot: int, drive: int): Queue
    requires |v.queues| == QUEUES && InRange(slot, drive)
  {
    v.queues[slot * 2 + drive]
  }

  /** All but one queue are the same. */
  ghost predicate OthersSame(v: View, w: View, slot: int, drive: int) {
    && |v.queues| == |w.queues| == QUEUES
    && forall k :: 0 <= k < QUEUES && k != slot * 2 + drive ==> w.queues[k] == v.queues[k]
  }

  /** An insert is taken for a known drive and fewer than sixteen mounts; the image goes last and into the drive. */
  lemma InsertIs(v: View, slot: int, drive: int, path: Path)
    requires Inv(v)
    ensures var w := Next(v, Insert(slot, drive, path));
            if path != "" && 1 <= slot <= 7 && 0 <= drive <= 1 && |v.mounts| < 16 then
              var q, r := QueueOf(v, slot, drive), QueueOf(w, slot, drive);
              && w.mounts == v.mounts + [Mount(slot, drive, path)]
              && r.paths == q.paths + [path] && r.writable == q.writable + [false] && r.current == |q.paths|
              && OthersSame(v, w, slot, drive)
            else w == v
  {
    hide Project, Only;
  }

  /** Selecting puts exactly the wanted image into the drive, if there is one. */
  lemma SelectIs(v: View, slot: int, drive: int, index: int)
    requires Inv(v) && InRange(slot, drive)
    ensures var w := Next(v, Select(slot, drive, index));
            var q, r := QueueOf(v, slot, drive), QueueOf(w, slot, drive);
            && r.paths == q.paths && r.writable == q.writable && OthersSame(v, w, slot, drive) && w.mounts == v.mounts
            && r.current == if 0 <= index < |q.paths| then index else q.current
  {
    hide Project, Only;
  }

  /** A swap moves around the queue of the drive; drives above 1 count as drive 0. */
  lemma SwapIs(v: View, slot: int, drive: nat, param: int, relative: bool)
    requires Inv(v) && 1 <= slot <= 7
    ensures var d := if drive > 1 then 0 else drive;
            var w := Next(v, Swap(slot, drive, param, relative));
            var q, r := QueueOf(v, slot, d), QueueOf(w, slot, d);
            && r.paths == q.paths && r.writable == q.writable && OthersSame(v, w, slot, d) && w.mounts == v.mounts
            && r.current == if param == 0 || q.paths == [] then q.current
                            else (if relative then q.current + param else param - 1) % |q.paths|
  {
    hide Project, Only;
  }

  /** Only the current image's flag changes. */
  lemma SetWritableIs(v: View, slot: int, drive: int, flag: bool)
    requires Inv(v) && InRange(slot, drive)
    ensures var w := Next(v, SetWritable(slot, drive, flag));
            var q, r := QueueOf(v, slot, drive), QueueOf(w, slot, drive);
            && r.paths == q.paths && r.current == q.current && |r.writable| == |q.writable| == |q.paths|
            && OthersSame(v, w, slot, drive) && w.mounts == v.mounts
            && forall i :: 0 <= i < |q.paths| ==> r.writable[i] == if i == q.current then flag else q.writable[i]
  {
    hide Project, Only;
    assert QueueOk(QueueOf(v, slot, drive));
  }

  /** The slot gets the card; a Mockingboard or SSC leaves its old slot empty; other slots keep theirs. */
  lemma SetCardIs(v: View, slot: int, kind: int)
    requires Inv(v)
    ensures var w := Next(v, SetCard(slot, kind));
            if 1 <= slot <= 7 && 0 <= kind <= 4 then
              && w.cards[slot] == kind
              && forall i :: 0 <= i < 8 && i != slot ==>
                   w.cards[i] == if i >= 1 && ((kind == 3 && i == v.mbSlot) || (kind == 4 && i == v.sscSlot)) then 0
                                 else v.cards[i]
            else w == v
  {
    hide Project, Sound;
  }

  /** A machine starts with a Mockingboard in slot 4, a Disk II in slot 6 and a SmartPort in slot 7. */
  lemma InitialIs()
    ensures var v := Initial();
            && v.mounts == [] && v.units == [] && v.mbSlot == 4 && v.sscSlot == 0 && |v.cards| == 8
            && (forall i :: 0 <= i < 8 ==>
                  v.cards[i] == if i == 4 then 3 else if i == 6 then 1 else if i == 7 then 2 else 0)
  {
  }

  /** A unit is refused for no path, an unknown unit, or a seventeenth one; an eject of an empty drive does nothing. */
  lemma Refused(v: View, slot: int, drive: int, path: Path)
    requires Inv(v)
    ensures path == "" || !(1 <= slot <= 7 && 0 <= drive <= 1)
            || (UnitPath(v.units, slot, drive) == "" && |v.units| >= 16)
            ==> Next(v, SetUnit(slot, drive, path)) == v
    ensures !(1 <= slot <= 7 && 0 <= drive <= 1) || QueueOf(v, slot, drive).paths == [] ==>
              Next(v, Eject(slot, drive)) == v
  {
    hide Project, Only, UnitAt;
    var i := UnitAt(v.units, slot, drive);
    if i < |v.units| {
      assert Sound(v.units[i]);
    }
  }

  // ---- reconciling ----

  lemma UnitPathCons(m: Mount, rest: seq<Mount>, slot: int, unit: int)
    ensures UnitPath([m] + rest, slot, unit) == if On(m, slot, unit) then m.path else UnitPath(rest, slot, unit)
  {
    assert ([m] + rest)[1..] == rest;
  }

  lemma UnitPathNone(slot: int, unit: int)
    ensures UnitPath([], slot, unit) == ""
  {
  }

  lemma {:induction false} UnitsOnCard(us: seq<Mount>, cards: seq<int>, kind: int, slot: int, unit: int)
    requires |cards| == SLOTS
    ensures UnitPath(OnCard(us, cards, kind), slot, unit)
            == if 1 <= slot <= 7 && cards[slot] == kind then UnitPath(us, slot, unit) else ""
  {
    hide UnitPath;
    if us == [] {
      UnitPathNone(slot, unit);
    } else {
      var m, rest := us[0], us[1..];
      UnitsOnCard(rest, cards, kind, slot, unit);
      UnitPathCons(m, rest, slot, unit);
      UnitPathCons(m, OnCard(rest, cards, kind), slot, unit);
      assert [m] + rest == us && [] + OnCard(rest, cards, kind) == OnCard(rest, cards, kind);
    }
  }

  /** A SmartPort unit survives reconciling exactly when its slot holds a SmartPort card. */
  lemma ReconcileUnits(v: View, slot: int, unit: int)
    requires Inv(v)
    ensures UnitPath(Next(v, Reconcile).units, slot, unit)
            == if 1 <= slot <= 7 && v.cards[slot] == SMARTPORT then UnitPath(v.units, slot, unit) else ""
  {
    hide Project, Only, OnCard, UnitPath;
    UnitsOnCard(v.units, v.cards, SMARTPORT, slot, unit);
  }

  /** What is kept is every matching entry, once and in order: `from` says where each one stood. */
  ghost predicate KeptFrom(kept: seq<Mount>, all: seq<Mount>, from: seq<nat>, cards: seq<int>, kind: int)
    requires |cards| == SLOTS
  {
    && |from| == |kept|
    && (forall i :: 0 <= i < |from| ==> from[i] < |all| && kept[i] == all[from[i]])
    && (forall i, j :: 0 <= i < j < |from| ==> from[i] < from[j])
    && forall k :: 0 <= k < |all| ==> (k in from <==> 1 <= all[k].slot <= 7 && cards[all[k].slot] == kind)
  }

  lemma KeptMore(kept: seq<Mount>, all: seq<Mount>, from: seq<nat>, cards: seq<int>, kind: int, m: Mount)
    requires |cards| == SLOTS && KeptFrom(kept, all, from, cards, kind) && Matches(m, cards, kind)
    ensures KeptFrom(kept + [m], all + [m], from + [|all|], cards, kind)
  {
    var more, every := from + [|all|], all + [m];
    forall k | 0 <= k < |every| ensures k in more <==> 1 <= every[k].slot <= 7 && cards[every[k].slot] == kind {
      if k < |all| {
        assert every[k] == all[k] && (k in more <==> k in from);
      } else {
        assert more[|from|] == k;
      }
    }
  }

  lemma KeptNoMore(kept: seq<Mount>, all: seq<Mount>, from: seq<nat>, cards: seq<int>, kind: int, m: Mount)
    requires |cards| == SLOTS && KeptFrom(kept, all, from, cards, kind) && !Matches(m, cards, kind)
    ensures KeptFrom(kept, all + [m], from, cards, kind)
  {
    var every := all + [m];
    forall k | 0 <= k < |every| ensures k in from <==> 1 <= every[k].slot <= 7 && cards[every[k].slot] == kind {
      if k < |all| {
        assert every[k] == all[k];
      }
    }
  }

  lemma {:induction false} KeptInOrder(ms: seq<Mount>, cards: seq<int>, kind: int) returns (from: seq<nat>)
    requires |cards| == SLOTS
    ensures KeptFrom(OnCard(ms, cards, kind), ms, from, cards, kind)
  {
    hide KeptFrom, Matches, OnCard;
    if ms == [] {
      from := [];
      NothingKept(cards, kind);
    } else {
      var n := |ms| - 1;
      var less := KeptInOrder(ms[..n], cards, kind);
      var kept := OnCard(ms[..n], cards, kind);
      OnCardSnoc(ms[..n], ms[n], cards, kind);
      assert ms[..n] + [ms[n]] == ms && kept + [] == kept;
      if Matches(ms[n], cards, kind) {
        KeptMore(kept, ms[..n], less, cards, kind, ms[n]);
        from := less + [n];
      } else {
        KeptNoMore(kept, ms[..n], less, cards, kind, ms[n]);
        from := less;
      }
    }
  }

  lemma NothingKept(cards: seq<int>, kind: int)
    requires |cards| == SLOTS
    ensures KeptFrom(OnCard([], cards, kind), [], [], cards, kind)
  {
  }

  lemma {:induction false} OnCardSnoc(ms: seq<Mount>, m: Mount, cards: seq<int>, kind: int)
    requires |cards| == SLOTS
    ensures OnCard(ms + [m], cards, kind) == OnCard(ms, cards, kind) + if Matches(m, cards, kind) then [m] else []
  {
    hide Matches;
    if ms != [] {
      assert (ms + [m])[1..] == ms[1..] + [m];
      OnCardSnoc(ms[1..], m, cards, kind);
    } else {
      assert [m][1..] == [];
    }
  }

  /** Reconciling keeps exactly the mounts on Disk II cards and the units on SmartPort cards, each once and in order. */
  lemma ReconcileKeeps(v: View) returns (mounts: seq<nat>, units: seq<nat>)
    requires Inv(v)
    ensures var w := Next(v, Reconcile);
            && KeptFrom(w.mounts, v.mounts, mounts, v.cards, DISKII)
            && KeptFrom(w.units, v.units, units, v.cards, SMARTPORT)
  {
    hide Project, Only, OnCard, Matches, KeptFrom;
    mounts := KeptInOrder(v.mounts, v.cards, DISKII);
    units := KeptInOrder(v.units, v.cards, SMARTPORT);
  }
}
