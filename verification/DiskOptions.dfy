/** The media and card options as they are kept and changed in place; every operation is a step of the specification. */
module DiskOptions {
  import opened Powers
  import opened DiskSpec

  // ---- lists in fixed arrays ----

  /** The shifting loop: entry i goes, later ones move down. */
  method RemoveAt(a: array<Mount>, i: nat, n: nat)
    requires i < n <= a.Length
    modifies a
    ensures a[..n - 1] == Removed(old(a[..n]), i)
  {
    ghost var was := a[..n];
    var j := i;
    while j < n - 1
      invariant i <= j <= n - 1
      invariant forall k :: 0 <= k < j ==> a[k] == Removed(was, i)[k]
      invariant forall k :: j <= k < n ==> a[k] == was[k]
      modifies a
    {
      a[j] := a[j + 1];
      j := j + 1;
    }
    assert a[..n - 1] == Removed(was, i);
  }

  /** Drops every entry whose slot does not hold a card of this kind; the others keep their order. */
  method KeepOnCard(a: array<Mount>, n: nat, cards: seq<int>, kind: int) returns (left: nat)
    requires n <= a.Length && |cards| == SLOTS
    modifies a
    ensures left <= n && a[..left] == OnCard(old(a[..n]), cards, kind)
  {
    hide OnCard, Removed;
    var i: nat := 0;
    left := n;
    ghost var kept: seq<Mount>, rest := [], a[..n];
    while i < left
      invariant i == |kept| && i + |rest| == left <= n
      invariant a[..left] == kept + rest
      invariant kept + OnCard(rest, cards, kind) == OnCard(old(a[..n]), cards, kind)
      decreases left - i
      modifies a
    {
      OnCardStep(kept, rest, cards, kind);
      Split(kept, rest);
      assert a[..left][i] == rest[0];
      var slot := a[i].slot;
      if slot < 1 || slot > 7 || cards[slot] != kind {
        RemoveAt(a, i, left);
        left := left - 1;
        rest := rest[1..];
      } else {
        i := i + 1;
        kept, rest := kept + [rest[0]], rest[1..];
      }
    }
    OnCardNone(cards, kind);
  }

  lemma OnCardNone(cards: seq<int>, kind: int)
    requires |cards| == SLOTS
    ensures OnCard([], cards, kind) == []
  {
  }

  lemma OnCardStep(kept: seq<Mount>, rest: seq<Mount>, cards: seq<int>, kind: int)
    requires |cards| == SLOTS && rest != []
    ensures kept + OnCard(rest, cards, kind)
            == if Matches(rest[0], cards, kind) then kept + [rest[0]] + OnCard(rest[1..], cards, kind)
               else kept + OnCard(rest[1..], cards, kind)
  {
    hide Matches;
    var r := OnCard(rest[1..], cards, kind);
    Regroup(kept, rest[0], r);
    assert [] + r == r;
  }

  lemma Regroup(a: seq<Mount>, m: Mount, b: seq<Mount>)
    ensures a + ([m] + b) == a + [m] + b
  {
  }

  lemma Split(kept: seq<Mount>, rest: seq<Mount>)
    requires rest != []
    ensures Removed(kept + rest, |kept|) == kept + rest[1..]
    ensures kept + rest == kept + [rest[0]] + rest[1..]
  {
  }

  /** Takes unique cards of this kind out of every other slot. */
  method ClearOthers(cards: array<int>, slot: int, kind: int)
    requires cards.Length == SLOTS
    modifies cards
    ensures forall k :: 0 <= k < SLOTS ==>
              cards[k] == if k >= 1 && k != slot && old(cards[k]) == kind then EMPTY else old(cards[k])
  {
    var i := 1;
    while i <= 7
      invariant 1 <= i <= 8
      invariant forall k :: 0 <= k < i ==>
                  cards[k] == if k >= 1 && k != slot && old(cards[k]) == kind then EMPTY else old(cards[k])
      invariant forall k :: i <= k < SLOTS ==> cards[k] == old(cards[k])
      modifies cards
    {
      if i != slot && cards[i] == kind {
        cards[i] := EMPTY;
      }
      i := i + 1;
    }
  }

  // ---- the swap arithmetic ----

  /** C's remainder: it has the sign of the dividend. */
  function Rem(a: int, b: nat): int
    requires b > 0
  {
    if a >= 0 then a % b else -((-a) % b)
  }

  lemma RemIsMod(a: int, n: nat)
    requires n > 0
    ensures 0 <= Rem(a, n) + n && Rem(Rem(a, n) + n, n) == a % n
  {
    var b: int := n;
    if a >= 0 {
      var q, r := a / n, a % n;
      ModUnique(r + b, 1, r, n);
    } else {
      var q, r := (-a) / n, (-a) % n;
      assert -a == q * b + r;
      if r == 0 {
        NegMul(q, b);
        ModUnique(a, -q, 0, n);
        ModUnique(b, 1, 0, n);
      } else {
        NegMul(q + 1, b);
        assert (q + 1) * b == q * b + b;
        ModUnique(a, -(q + 1), b - r, n);
        ModUnique(b - r, 0, b - r, n);
      }
    }
  }

  lemma NegMul(q: int, n: int)
    ensures (-q) * n == -(q * n)
  {
  }

  // ---- the options ----

  class Options {
    const diskii: array<Mount>
    var diskiiCount: nat
    const queues: array<Queue>
    const cards: array<int>
    var mbSlot: int
    var sscSlot: int
    const smartport: array<Mount>
    var smartportCount: nat

    ghost predicate Shape()
      reads this
    {
      && diskii.Length == MAX_MOUNTS && queues.Length == QUEUES && cards.Length == SLOTS
      && smartport.Length == MAX_MOUNTS && diskii != smartport
      && diskiiCount <= MAX_MOUNTS && smartportCount <= MAX_MOUNTS
    }

    ghost function Abs(): (v: View)
      requires Shape()
      reads this, diskii, queues, cards, smartport
      ensures |v.queues| == QUEUES && |v.cards| == SLOTS
    {
      View(diskii[..diskiiCount], queues[..], cards[..], mbSlot, sscSlot, smartport[..smartportCount])
    }

    ghost predicate Valid()
      reads this, diskii, queues, cards, smartport
    {
      Shape() && Inv(Abs())
    }


    constructor ()
      ensures Valid() && Abs() == Initial()
      ensures fresh(diskii) && fresh(queues) && fresh(cards) && fresh(smartport)
    {
      hide Inv, Initial;
      var kinds := [EMPTY, EMPTY, EMPTY, EMPTY, MOCKINGBOARD, EMPTY, DISKII, SMARTPORT];
      diskii := new Mount[MAX_MOUNTS](_ => Mount(0, 0, ""));
      queues := new Queue[QUEUES](_ => Queue([], [], 0));
      cards := new int[SLOTS](i requires 0 <= i < SLOTS => kinds[i]);
      smartport := new Mount[MAX_MOUNTS](_ => Mount(0, 0, ""));
      diskiiCount, smartportCount, mbSlot, sscSlot := 0, 0, 4, 0;
      new;
      InitialSound();
      InitialIs(Abs());
    }

    /** app_options_diskii_append_path. */
    method AppendPath(slot: int, drive: int, path: Path) returns (ok: bool)
      requires Valid()
      modifies this`diskiiCount, diskii, queues
      ensures Shape()
      ensures ok <==> path != "" && InRange(slot, drive) && old(diskiiCount) < MAX_MOUNTS
      ensures !ok ==> Abs() == old(Abs())
      ensures ok ==>
                var v := old(Abs());
                var q := v.queues[slot * 2 + drive];
                Abs() == WithQueue(v, slot, drive, Appended(q, path))
                         .(mounts := v.mounts + [Mount(slot, drive, path)])
    {
      if path == "" || !InRange(slot, drive) || diskiiCount >= MAX_MOUNTS {
        return false;
      }
      diskii[diskiiCount] := Mount(slot, drive, path);
      diskiiCount := diskiiCount + 1;
      var q := queues[slot * 2 + drive];
      queues[slot * 2 + drive] := Appended(q, path);
      ok := true;
    }

    /** MEDIA_CHANGED with an insert: the new image goes last and is the current one. */
    method MediaInserted(slot: int, drive: int, path: Path)
      requires Valid()
      modifies this`diskiiCount, diskii, queues
      ensures Valid() && Abs() == Next(old(Abs()), Insert(slot, drive, path))
    {
      hide Inv, Project;
      ghost var v := Abs();
      InvShape(v);
      NextKeeps(v, Insert(slot, drive, path));
      var ok := AppendPath(slot, drive, path);
      if ok {
        var q := queues[slot * 2 + drive];
        if |q.paths| > 0 {
          queues[slot * 2 + drive] := q.(current := |q.paths| - 1);
        }
        ghost var was := v.queues[slot * 2 + drive];
        assert queues[..] == v.queues[slot * 2 + drive := Appended(was, path).(current := |was.paths|)];
      }
    }

    /** app_options_diskii_eject_current: it never reports failure. */
    method EjectCurrent(slot: int, drive: int) returns (ok: bool)
      requires Valid()
      modifies this`diskiiCount, diskii, queues
      ensures ok && Valid() && Abs() == Next(old(Abs()), Eject(slot, drive))
    {
      hide Inv, Project, WithoutNth, On, QueueEjected;
      ghost var v := Abs();
      InvShape(v);
      NextKeeps(v, Eject(slot, drive));
      if !InRange(slot, drive) || |queues[slot * 2 + drive].paths| <= 0 {
        return true;
      }
      var q := queues[slot * 2 + drive];
      var target, seen, i: nat := q.current, 0, 0;
      QueueIs(v, slot, drive);
      ProjectNone(v.mounts, slot, drive);
      ok := false;
      while i < diskiiCount && !ok
        invariant Shape() && i <= diskiiCount <= |v.mounts|
        invariant !ok ==> seen == |Project(v.mounts[..i], slot, drive)| <= target
        invariant !ok ==> Abs() == v && diskiiCount == |v.mounts| && queues[slot * 2 + drive] == q
        invariant ok ==> Abs() == Next(v, Eject(slot, drive))
        decreases if ok then 0 else diskiiCount - i + 1
        modifies this`diskiiCount, diskii, queues
      {
        ProjectTo(v.mounts, i, slot, drive);
        assert diskii[i] == v.mounts[i];
        if !(diskii[i].slot != slot || diskii[i].drive != drive) {
          if seen == target {
            assert diskii[..i] == v.mounts[..i];
            TakeOut(slot, drive, i);
            ok := true;
          } else {
            seen := seen + 1;
            i := i + 1;
          }
        } else {
          i := i + 1;
        }
      }
      assert v.mounts[..|v.mounts|] == v.mounts;
    }

    /** Entry i, the current image of its drive, leaves both the mount list and the queue. */
    method TakeOut(slot: int, drive: int, i: nat)
      requires Valid() && InRange(slot, drive) && i < diskiiCount && On(diskii[i], slot, drive)
      requires queues[slot * 2 + drive].current == |Project(diskii[..i], slot, drive)|
      requires queues[slot * 2 + drive].paths != []
      modifies this`diskiiCount, diskii, queues
      ensures Shape() && diskiiCount == old(diskiiCount) - 1
      ensures |old(Abs()).cards| == SLOTS && forall k :: 0 <= k < QUEUES ==> QueueOk(old(Abs()).queues[k])
      ensures Abs() == Next(old(Abs()), Eject(slot, drive))
    {
      hide Inv, Project, WithoutNth, On, QueueEjected;
      ghost var v := Abs();
      InvShape(v);
      var q := queues[slot * 2 + drive];
      assert QueueOk(v.queues[slot * 2 + drive]);
      assert diskii[i] == v.mounts[i] && diskii[..i] == v.mounts[..i];
      WithoutIs(v.mounts, slot, drive, i);
      RemoveAt(diskii, i, diskiiCount);
      diskiiCount := diskiiCount - 1;
      queues[slot * 2 + drive] := QueueEjected(q);
    }

    /** RUNTIME_EVENT_DISK_SWAP: which image is current follows the machine. */
    method SwapDisk(slot: int, drive: int, param: int, relative: bool)
      requires Valid()
      modifies queues
      ensures Valid() && Abs() == Next(old(Abs()), Swap(slot, drive, param, relative))
    {
      hide Inv, Project, Rem;
      ghost var v := Abs();
      InvShape(v);
      NextKeeps(v, Swap(slot, drive, param, relative));
      var d := if drive > 1 then 0 else drive;
      if !InRange(slot, d) {
        return;
      }
      var q := queues[slot * 2 + d];
      if param != 0 && |q.paths| > 0 {
        var wanted := if relative then q.current + param else param - 1;
        RemIsMod(wanted, |q.paths|);
        var index := Rem(Rem(wanted, |q.paths|) + |q.paths|, |q.paths|);
        queues[slot * 2 + d] := q.(current := index);
      }
    }

    /** app_disk_slot_select on the queue of a drive. */
    method SelectImage(slot: int, drive: int, index: int)
      requires Valid()
      modifies queues
      ensures Valid() && Abs() == Next(old(Abs()), Select(slot, drive, index))
    {
      hide Inv, Project;
      ghost var v := Abs();
      InvShape(v);
      NextKeeps(v, Select(slot, drive, index));
      if !InRange(slot, drive) || index < 0 || index >= |queues[slot * 2 + drive].paths| {
        return;
      }
      queues[slot * 2 + drive] := queues[slot * 2 + drive].(current := index);
    }

    /** app_disk_slot_set_current_writable on the queue of a drive. */
    method SetCurrentWritable(slot: int, drive: int, flag: bool) returns (ok: bool)
      requires Valid()
      modifies queues
      ensures Valid() && Abs() == Next(old(Abs()), SetWritable(slot, drive, flag))
      ensures ok <==> InRange(slot, drive) && |old(Abs()).queues[slot * 2 + drive].paths| > 0
    {
      hide Inv, Project;
      ghost var v := Abs();
      InvShape(v);
      NextKeeps(v, SetWritable(slot, drive, flag));
      if !InRange(slot, drive) || |queues[slot * 2 + drive].paths| == 0 {
        return false;
      }
      var q := queues[slot * 2 + drive];
      assert QueueOk(v.queues[slot * 2 + drive]);
      queues[slot * 2 + drive] := q.(writable := q.writable[q.current := flag]);
      ok := true;
    }

    /** app_options_set_slot_card. */
    method SetSlotCard(slot: int, kind: int) returns (ok: bool)
      requires Valid()
      modifies cards, this`mbSlot, this`sscSlot
      ensures Valid() && Abs() == Next(old(Abs()), SetCard(slot, kind))
      ensures ok <==> 1 <= slot <= 7 && EMPTY <= kind <= SSC
    {
      hide Inv, Project;
      ghost var v := Abs();
      InvShape(v);
      NextKeeps(v, SetCard(slot, kind));
      CardsOf(v);
      if slot < 1 || slot > 7 || kind < EMPTY || kind > SSC {
        return false;
      }
      if kind == MOCKINGBOARD {
        ClearOthers(cards, slot, MOCKINGBOARD);
        mbSlot := slot;
      } else if cards[slot] == MOCKINGBOARD && mbSlot == slot {
        mbSlot := 0;
      }
      if kind == SSC {
        ClearOthers(cards, slot, SSC);
        sscSlot := slot;
      } else if cards[slot] == SSC && sscSlot == slot {
        sscSlot := 0;
      }
      cards[slot] := kind;
      assert cards[..] == Assigned(v.cards, slot, kind);
      ok := true;
    }

    /** app_options_smartport_set_path. */
    method SetSmartportPath(slot: int, unit: int, path: Path) returns (ok: bool)
      requires Valid()
      modifies this`smartportCount, smartport
      ensures Valid() && Abs() == Next(old(Abs()), SetUnit(slot, unit, path))
      ensures ok <==> path != "" && InRange(slot, unit)
                      && (UnitAt(old(Abs()).units, slot, unit) < |old(Abs()).units| || |old(Abs()).units| < MAX_MOUNTS)
    {
      hide Inv, Project, UnitAt;
      ghost var v := Abs();
      InvShape(v);
      NextKeeps(v, SetUnit(slot, unit, path));
      if path == "" || !InRange(slot, unit) {
        return false;
      }
      var i := FindUnit(slot, unit);
      if i < smartportCount {
        smartport[i] := Mount(slot, unit, path);
        assert smartport[..smartportCount] == v.units[i := Mount(slot, unit, path)];
        return true;
      }
      if smartportCount >= MAX_MOUNTS {
        return false;
      }
      smartport[smartportCount] := Mount(slot, unit, path);
      smartportCount := smartportCount + 1;
      assert smartport[..smartportCount] == v.units + [Mount(slot, unit, path)];
      ok := true;
    }

    method FindUnit(slot: int, unit: int) returns (i: nat)
      requires Shape()
      ensures i == UnitAt(Abs().units, slot, unit)
    {
      hide UnitAt, On;
      ghost var us := Abs().units;
      i := 0;
      while i < smartportCount
        invariant i <= smartportCount && us == Abs().units
        invariant forall j :: 0 <= j < i ==> !On(us[j], slot, unit)
      {
        assert smartport[i] == us[i];
        OnIs(us[i], slot, unit);
        if smartport[i].slot == slot && smartport[i].drive == unit {
          break;
        }
        i := i + 1;
      }
      UnitAtIs(us, slot, unit, i);
    }

    /** app_options_smartport_clear_path. */
    method ClearSmartportPath(slot: int, unit: int)
      requires Valid()
      modifies this`smartportCount, smartport
      ensures Valid() && Abs() == Next(old(Abs()), ClearUnit(slot, unit))
    {
      hide Inv, Project, UnitAt;
      ghost var v := Abs();
      InvShape(v);
      NextKeeps(v, ClearUnit(slot, unit));
      var i := FindUnit(slot, unit);
      if i < smartportCount {
        RemoveAt(smartport, i, smartportCount);
        smartportCount := smartportCount - 1;
      }
    }

    /** app_options_rebuild_diskii_queues. */
    method RebuildQueues()
      requires Shape() && MountsSound(diskii[..diskiiCount])
      modifies queues
      ensures queues[..] == Rebuilt(diskii[..diskiiCount])
    {
      hide Project, Rebuilt;
      var k := 0;
      while k < QUEUES
        invariant 0 <= k <= QUEUES
        invariant forall j :: 0 <= j < k ==> queues[j] == Queue([], [], 0)
        modifies queues
      {
        queues[k] := Queue([], [], 0);
        k := k + 1;
      }
      ghost var ms := diskii[..diskiiCount];
      var i := 0;
      ProjectNowhere();
      assert ms[..0] == [];
      while i < diskiiCount
        invariant 0 <= i <= diskiiCount
        invariant forall j :: 0 <= j < QUEUES ==> queues[j] == ReadOnly(Project(ms[..i], j / 2, j % 2))
        modifies queues
      {
        assert diskii[i] == ms[i];
        var m := diskii[i];
        ProjectEverywhere(ms, i);
        if InRange(m.slot, m.drive) && m.path != "" {
          var q := queues[m.slot * 2 + m.drive];
          queues[m.slot * 2 + m.drive] := Appended(q, m.path);
        }
        i := i + 1;
      }
      assert ms[..i] == ms;
      RebuiltIs(queues[..], ms);
    }

    /** app_options_reconcile_slot_cards, but for the convenience path strings. */
    method ReconcileCards()
      requires Valid()
      modifies this`diskiiCount, this`smartportCount, diskii, smartport, queues
      ensures Valid() && Abs() == Next(old(Abs()), Reconcile)
    {
      hide Inv, OnCard, Project, Rebuilt;
      ghost var v := Abs();
      InvShape(v);
      NextKeeps(v, Reconcile);
      diskiiCount := KeepOnCard(diskii, diskiiCount, cards[..], DISKII);
      smartportCount := KeepOnCard(smartport, smartportCount, cards[..], SMARTPORT);
      MountsOf(Next(v, Reconcile));
      RebuildQueues();
    }

    /** Any one step. */
    method Perform(step: Step)
      requires Valid()
      modifies this, diskii, queues, cards, smartport
      ensures Valid() && Abs() == Next(old(Abs()), step)
    {
      hide Inv, Next;
      match step
      case Insert(slot, drive, path) => MediaInserted(slot, drive, path);
      case Eject(slot, drive) =>
        var _ := EjectCurrent(slot, drive);
      case Swap(slot, drive, param, relative) => SwapDisk(slot, drive, param, relative);
      case Select(slot, drive, index) => SelectImage(slot, drive, index);
      case SetWritable(slot, drive, flag) =>
        var _ := SetCurrentWritable(slot, drive, flag);
      case SetCard(slot, kind) =>
        var _ := SetSlotCard(slot, kind);
      case SetUnit(slot, unit, path) =>
        var _ := SetSmartportPath(slot, unit, path);
      case ClearUnit(slot, unit) => ClearSmartportPath(slot, unit);
      case Reconcile => ReconcileCards();
    }

    /** A whole run, one step after the other. */
    method PerformAll(steps: seq<Step>)
      requires Valid()
      modifies this, diskii, queues, cards, smartport
      ensures Valid() && Abs() == After(old(Abs()), steps)
    {
      hide Inv, Next, After;
      ghost var v := Abs();
      var i := 0;
      AfterStep(v, steps[..0]);
      while i < |steps|
        invariant 0 <= i <= |steps|
        invariant Valid() && Abs() == After(v, steps[..i])
      {
        AfterStep(v, steps[..i + 1]);
        assert steps[..i + 1][..i] == steps[..i];
        Perform(steps[i]);
        i := i + 1;
      }
      assert steps[..i] == steps;
    }
  }

  lemma QueueIs(v: View, slot: int, drive: int)
    requires Inv(v) && InRange(slot, drive)
    ensures |v.queues| == QUEUES
    ensures v.queues[slot * 2 + drive].paths == Project(v.mounts, slot, drive)
    ensures QueueOk(v.queues[slot * 2 + drive])
  {
    hide Project, Only;
    QueueIndex(slot, drive, slot * 2 + drive);
  }

  lemma ProjectNone(ms: seq<Mount>, slot: int, drive: int)
    ensures Project(ms[..0], slot, drive) == []
  {
  }

  lemma ProjectTo(ms: seq<Mount>, i: nat, slot: int, drive: int)
    requires i < |ms|
    ensures Project(ms[..i + 1], slot, drive)
            == Project(ms[..i], slot, drive) + if On(ms[i], slot, drive) then [ms[i].path] else []
    ensures On(ms[i], slot, drive) <==> ms[i].slot == slot && ms[i].drive == drive
  {
    hide Project;
    ProjectSnoc(ms[..i], ms[i], slot, drive);
    assert ms[..i + 1] == ms[..i] + [ms[i]];
  }

  lemma AfterStep(v: View, steps: seq<Step>)
    requires Inv(v)
    ensures steps == [] ==> After(v, steps) == v
    ensures steps != [] ==>
              var k := |steps| - 1;
              var u := After(v, steps[..k]);
              && |u.queues| == QUEUES && |u.cards| == SLOTS && (forall j :: 0 <= j < QUEUES ==> QueueOk(u.queues[j]))
              && After(v, steps) == Next(u, steps[k])
  {
    hide Next, Project, Only;
  }

  lemma InitialIs(v: View)
    requires v.mounts == [] && v.units == [] && v.mbSlot == 4 && v.sscSlot == 0
    requires |v.queues| == QUEUES && forall k :: 0 <= k < QUEUES ==> v.queues[k] == Queue([], [], 0)
    requires v.cards == [EMPTY, EMPTY, EMPTY, EMPTY, MOCKINGBOARD, EMPTY, DISKII, SMARTPORT]
    ensures v == Initial()
  {
    hide Rebuilt;
    ProjectNowhere();
    RebuiltIs(v.queues, []);
  }

  lemma CardsOf(v: View)
    requires Inv(v)
    ensures CardsSound(v)
  {
  }

  lemma MountsOf(v: View)
    requires Inv(v)
    ensures MountsSound(v.mounts)
  {
  }

  lemma ProjectNowhere()
    ensures forall slot, drive :: Project([], slot, drive) == []
  {
  }

  /** One more mount changes the queue of its own drive only. */
  lemma ProjectEverywhere(ms: seq<Mount>, i: nat)
    requires i < |ms| && Sound(ms[i])
    ensures forall j :: 0 <= j < QUEUES ==>
              ReadOnly(Project(ms[..i + 1], j / 2, j % 2))
              == (var q := ReadOnly(Project(ms[..i], j / 2, j % 2));
                  if j == ms[i].slot * 2 + ms[i].drive then Appended(q, ms[i].path) else q)
  {
    hide Project, On, ReadOnly, Appended;
    forall j | 0 <= j < QUEUES
      ensures ReadOnly(Project(ms[..i + 1], j / 2, j % 2))
              == (var q := ReadOnly(Project(ms[..i], j / 2, j % 2));
                  if j == ms[i].slot * 2 + ms[i].drive then Appended(q, ms[i].path) else q)
    {
      var before := Project(ms[..i], j / 2, j % 2);
      ProjectTo(ms, i, j / 2, j % 2);
      QueueIndex(ms[i].slot, ms[i].drive, j);
      ReadOnlyAppended(before, ms[i].path);
      assert before + [] == before;
    }
  }

  lemma RebuiltIs(qs: seq<Queue>, ms: seq<Mount>)
    requires |qs| == QUEUES && forall j :: 0 <= j < QUEUES ==> qs[j] == ReadOnly(Project(ms, j / 2, j % 2))
    ensures qs == Rebuilt(ms)
  {
    hide Project;
  }
}
