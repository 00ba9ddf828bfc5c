/** Disk media and slot cards of the emulated machine: the state, its steps, and what every run keeps. */
module DiskSpec {
  import opened Powers

  type Path = string

  /** An entry of the ordered mount list. */
  datatype Mount = Mount(slot: int, drive: int, path: Path)

  /** The images waiting for one drive, whether each may be written, and which of them is in the drive. */
  datatype Queue = Queue(paths: seq<Path>, writable: seq<bool>, current: nat)

  const MAX_MOUNTS: nat := 16
  const QUEUES: nat := 16
  const SLOTS: nat := 8

  const EMPTY: int := 0
  const DISKII: int := 1
  const SMARTPORT: int := 2
  const MOCKINGBOARD: int := 3
  const SSC: int := 4

  datatype View = View(
    mounts: seq<Mount>,
    queues: seq<Queue>,
    cards: seq<int>,
    mbSlot: int,
    sscSlot: int,
    units: seq<Mount>)

  predicate InRange(slot: int, drive: int) {
    1 <= slot <= 7 && 0 <= drive <= 1
  }

  // ---- the mount list seen from one drive ----

  predicate On(m: Mount, slot: int, drive: int) {
    m.slot == slot && m.drive == drive
  }

  /** The paths of one drive, in mount order. */
  function Project(ms: seq<Mount>, slot: int, drive: int): (ps: seq<Path>)
    ensures |ps| <= |ms|
  {
    if ms == [] then []
    else (if On(ms[0], slot, drive) then [ms[0].path] else []) + Project(ms[1..], slot, drive)
  }

  function Removed<T>(s: seq<T>, k: nat): seq<T>
    requires k < |s|
  {
    s[..k] + s[k + 1..]
  }

  /** The list without entry number k of a drive. */
  function WithoutNth(ms: seq<Mount>, slot: int, drive: int, k: nat): seq<Mount> {
    if ms == [] then []
    else if !On(ms[0], slot, drive) then [ms[0]] + WithoutNth(ms[1..], slot, drive, k)
    else if k == 0 then ms[1..]
    else [ms[0]] + WithoutNth(ms[1..], slot, drive, k - 1)
  }

  /** The entries whose slot holds a card of this kind, in order. */
  function OnCard(ms: seq<Mount>, cards: seq<int>, kind: int): seq<Mount>
    requires |cards| == SLOTS
  {
    if ms == [] then []
    else (if Matches(ms[0], cards, kind) then [ms[0]] else []) + OnCard(ms[1..], cards, kind)
  }

  predicate Matches(m: Mount, cards: seq<int>, kind: int)
    requires |cards| == SLOTS
  {
    1 <= m.slot <= 7 && cards[m.slot] == kind
  }

  lemma {:induction false} ProjectSnoc(ms: seq<Mount>, m: Mount, slot: int, drive: int)
    ensures Project(ms + [m], slot, drive)
            == Project(ms, slot, drive) + if On(m, slot, drive) then [m.path] else []
  {
    if ms != [] {
      assert (ms + [m])[1..] == ms[1..] + [m];
      ProjectSnoc(ms[1..], m, slot, drive);
    } else {
      assert [m][1..] == [];
    }
  }

  /** Taking out entry k of a drive takes out path k of that drive... */
  lemma {:induction false} ProjectWithout(ms: seq<Mount>, slot: int, drive: int, k: nat)
    requires k < |Project(ms, slot, drive)|
    ensures |WithoutNth(ms, slot, drive, k)| == |ms| - 1
    ensures Project(WithoutNth(ms, slot, drive, k), slot, drive) == Removed(Project(ms, slot, drive), k)
  {
    hide On;
    var m, rest := ms[0], ms[1..];
    var ps := Project(rest, slot, drive);
    if !On(m, slot, drive) {
      ProjectWithout(rest, slot, drive, k);
      ProjectCons(m, WithoutNth(rest, slot, drive, k), slot, drive);
      assert [] + ps == ps;
    } else if k > 0 {
      ProjectWithout(rest, slot, drive, k - 1);
      ProjectCons(m, WithoutNth(rest, slot, drive, k - 1), slot, drive);
      assert Removed([m.path] + ps, k) == [m.path] + Removed(ps, k - 1);
    }
  }

  /** ...and touches no other drive. */
  lemma {:induction false} OthersWithout(ms: seq<Mount>, slot: int, drive: int, k: nat, s: int, d: int)
    requires !(s == slot && d == drive)
    ensures Project(WithoutNth(ms, slot, drive, k), s, d) == Project(ms, s, d)
  {
    if ms != [] {
      var m, rest := ms[0], ms[1..];
      if !On(m, slot, drive) {
        OthersWithout(rest, slot, drive, k, s, d);
        ProjectCons(m, WithoutNth(rest, slot, drive, k), s, d);
      } else if k > 0 {
        OthersWithout(rest, slot, drive, k - 1, s, d);
        ProjectCons(m, WithoutNth(rest, slot, drive, k - 1), s, d);
      }
    }
  }

  lemma ProjectCons(m: Mount, rest: seq<Mount>, slot: int, drive: int)
    ensures Project([m] + rest, slot, drive)
            == (if On(m, slot, drive) then [m.path] else []) + Project(rest, slot, drive)
  {
    hide On;
    assert ([m] + rest)[1..] == rest;
  }

  /** Entry k of a drive is the entry of that drive with k of its entries before it. */
  lemma {:induction false} WithoutIs(ms: seq<Mount>, slot: int, drive: int, i: nat)
    requires i < |ms| && On(ms[i], slot, drive)
    ensures WithoutNth(ms, slot, drive, |Project(ms[..i], slot, drive)|) == Removed(ms, i)
  {
    if i > 0 {
      WithoutIs(ms[1..], slot, drive, i - 1);
      assert ms[..i][1..] == ms[1..][..i - 1];
      assert Removed(ms, i) == [ms[0]] + Removed(ms[1..], i - 1);
    } else {
      assert ms[..0] == [] && Removed(ms, 0) == ms[1..];
    }
  }

  // ---- what every state satisfies ----

  predicate Sound(m: Mount) {
    InRange(m.slot, m.drive) && m.path != ""
  }

  predicate QueueOk(q: Queue) {
    |q.writable| == |q.paths| && if q.paths == [] then q.current == 0 else q.current < |q.paths|
  }

  /** The queue of every drive is the mount list seen from that drive. */
  ghost predicate QueuesAgree(v: View) {
    && |v.queues| == QUEUES
    && forall k :: 0 <= k < QUEUES ==> v.queues[k].paths == Project(v.mounts, k / 2, k % 2) && QueueOk(v.queues[k])
  }

  ghost predicate MountsSound(ms: seq<Mount>) {
    |ms| <= MAX_MOUNTS && forall i :: 0 <= i < |ms| ==> Sound(ms[i])
  }

  /** `at` is the slot of the only card of this kind, or 0 when there is none. */
  ghost predicate Only(cards: seq<int>, kind: int, at: int)
    requires |cards| == SLOTS
  {
    0 <= at <= 7 && forall i :: 1 <= i <= 7 ==> (cards[i] == kind <==> i == at)
  }

  ghost predicate CardsSound(v: View) {
    && |v.cards| == SLOTS
    && (forall i :: 0 <= i < SLOTS ==> EMPTY <= v.cards[i] <= SSC)
    && Only(v.cards, MOCKINGBOARD, v.mbSlot)
    && Only(v.cards, SSC, v.sscSlot)
  }

  /** No SmartPort unit is listed twice. */
  ghost predicate UnitsSound(us: seq<Mount>) {
    && MountsSound(us)
    && forall i, j :: 0 <= i < j < |us| ==> us[i].slot != us[j].slot || us[i].drive != us[j].drive
  }

  ghost predicate Inv(v: View) {
    MountsSound(v.mounts) && QueuesAgree(v) && CardsSound(v) && UnitsSound(v.units)
  }

  // ---- the steps ----

  datatype Step =
    | Insert(slot: int, drive: int, path: Path)
    | Eject(slot: int, drive: int)
    | Swap(slot: int, drive: int, param: int, relative: bool)
    | Select(slot: int, drive: int, index: int)
    | SetWritable(slot: int, drive: int, flag: bool)
    | SetCard(slot: int, kind: int)
    | SetUnit(slot: int, unit: int, path: Path)
    | ClearUnit(slot: int, unit: int)
    | Reconcile

  function WithQueue(v: View, slot: int, drive: int, q: Queue): View
    requires |v.queues| == QUEUES && InRange(slot, drive)
  {
    v.(queues := v.queues[slot * 2 + drive := q])
  }

  /** The image a swap asks for: counted from the current one, or from 1, and around the queue. */
  function SwapTo(current: nat, param: int, relative: bool, count: nat): (k: nat)
    requires count > 0
    ensures k < count
  {
    (if relative then current + param else param - 1) % count
  }

  /** A queue with the current image taken out. */
  function QueueEjected(q: Queue): Queue
    requires q.paths != [] && QueueOk(q)
  {
    var left := Removed(q.paths, q.current);
    Queue(left, Removed(q.writable, q.current), if q.current < |left| then q.current else 0)
  }

  function Assigned(cards: seq<int>, slot: int, kind: int): (r: seq<int>)
    requires |cards| == SLOTS
    ensures |r| == SLOTS
  {
    seq(SLOTS, i requires 0 <= i < SLOTS =>
      if i == slot then kind
      else if (kind == MOCKINGBOARD || kind == SSC) && i >= 1 && cards[i] == kind then EMPTY
      else cards[i])
  }

  function SlotAfter(at: int, slot: int, kind: int, unique: int): int {
    if kind == unique then slot else if at == slot then 0 else at
  }

  /** A queue of images as they are first put into it. */
  function ReadOnly(paths: seq<Path>): Queue {
    Queue(paths, seq(|paths|, _ => false), 0)
  }

  /** One image more, write-protected. */
  function Appended(q: Queue, path: Path): Queue {
    Queue(q.paths + [path], q.writable + [false], q.current)
  }

  lemma ReadOnlyAppended(paths: seq<Path>, path: Path)
    ensures Appended(ReadOnly(paths), path) == ReadOnly(paths + [path])
  {
  }

  function Rebuilt(ms: seq<Mount>): (qs: seq<Queue>)
    ensures |qs| == QUEUES
  {
    seq(QUEUES, k requires 0 <= k < QUEUES => ReadOnly(Project(ms, k / 2, k % 2)))
  }

  /** The place of a SmartPort unit in the list, or the length of the list. */
  function UnitAt(us: seq<Mount>, slot: int, unit: int): (i: nat)
    ensures i <= |us| && (i < |us| ==> On(us[i], slot, unit))
    ensures forall j :: 0 <= j < i ==> !On(us[j], slot, unit)
  {
    if us == [] || On(us[0], slot, unit) then 0 else 1 + UnitAt(us[1..], slot, unit)
  }

  function Next(v: View, step: Step): View
    requires |v.queues| == QUEUES && |v.cards| == SLOTS && forall k :: 0 <= k < QUEUES ==> QueueOk(v.queues[k])
  {
    match step
    case Insert(slot, drive, path) =>
      if path == "" || !InRange(slot, drive) || |v.mounts| >= MAX_MOUNTS then v
      else
        var q := v.queues[slot * 2 + drive];
        WithQueue(v, slot, drive, Appended(q, path).(current := |q.paths|))
        .(mounts := v.mounts + [Mount(slot, drive, path)])
    case Eject(slot, drive) =>
      if !InRange(slot, drive) || v.queues[slot * 2 + drive].paths == [] then v
      else
        var q := v.queues[slot * 2 + drive];
        assert QueueOk(q);
        WithQueue(v, slot, drive, QueueEjected(q)).(mounts := WithoutNth(v.mounts, slot, drive, q.current))
    case Swap(slot, drive, param, relative) =>
      var d := if drive > 1 then 0 else drive;
      if !InRange(slot, d) || param == 0 || v.queues[slot * 2 + d].paths == [] then v
      else
        var q := v.queues[slot * 2 + d];
        WithQueue(v, slot, d, q.(current := SwapTo(q.current, param, relative, |q.paths|)))
    case Select(slot, drive, index) =>
      if !InRange(slot, drive) || !(0 <= index < |v.queues[slot * 2 + drive].paths|) then v
      else WithQueue(v, slot, drive, v.queues[slot * 2 + drive].(current := index))
    case SetWritable(slot, drive, flag) =>
      if !InRange(slot, drive) || v.queues[slot * 2 + drive].paths == [] then v
      else
        var q := v.queues[slot * 2 + drive];
        assert QueueOk(q);
        WithQueue(v, slot, drive, q.(writable := q.writable[q.current := flag]))
    case SetCard(slot, kind) =>
      if !(1 <= slot <= 7 && EMPTY <= kind <= SSC) then v
      else v.(cards := Assigned(v.cards, slot, kind),
              mbSlot := SlotAfter(v.mbSlot, slot, kind, MOCKINGBOARD),
              sscSlot := SlotAfter(v.sscSlot, slot, kind, SSC))
    case SetUnit(slot, unit, path) =>
      if path == "" || !InRange(slot, unit) then v
      else
        var i := UnitAt(v.units, slot, unit);
        if i < |v.units| then v.(units := v.units[i := Mount(slot, unit, path)])
        else if |v.units| >= MAX_MOUNTS then v
        else v.(units := v.units + [Mount(slot, unit, path)])
    case ClearUnit(slot, unit) =>
      var i := UnitAt(v.units, slot, unit);
      if i < |v.units| then v.(units := Removed(v.units, i)) else v
    case Reconcile =>
      var left := OnCard(v.mounts, v.cards, DISKII);
      v.(mounts := left, units := OnCard(v.units, v.cards, SMARTPORT), queues := Rebuilt(left))
  }

  // ---- every step keeps the invariant ----

  lemma InvShape(v: View)
    requires Inv(v)
    ensures |v.queues| == QUEUES && |v.cards| == SLOTS && forall k :: 0 <= k < QUEUES ==> QueueOk(v.queues[k])
    ensures UnitsSound(v.units)
    ensures |v.mounts| <= MAX_MOUNTS && |v.units| <= MAX_MOUNTS
  {
    hide Project, Only;
  }

  lemma QueueIndex(slot: int, drive: int, k: int)
    requires InRange(slot, drive)
    ensures 2 <= slot * 2 + drive < QUEUES
    ensures k == slot * 2 + drive <==> k / 2 == slot && k % 2 == drive
  {
  }

  lemma InsertKeeps(v: View, slot: int, drive: int, path: Path)
    requires Inv(v)
    ensures Inv(Next(v, Insert(slot, drive, path)))
  {
    hide Project, On, Only;
    var w := Next(v, Insert(slot, drive, path));
    if w != v {
      forall k | 0 <= k < QUEUES
        ensures w.queues[k].paths == Project(w.mounts, k / 2, k % 2) && QueueOk(w.queues[k])
      {
        QueueIndex(slot, drive, k);
        ProjectSnoc(v.mounts, Mount(slot, drive, path), k / 2, k % 2);
        OnIs(Mount(slot, drive, path), k / 2, k % 2);
      }
    }
  }

  lemma OnIs(m: Mount, slot: int, drive: int)
    ensures On(m, slot, drive) <==> m.slot == slot && m.drive == drive
  {
  }

  lemma {:induction false} WithoutSound(ms: seq<Mount>, slot: int, drive: int, k: nat)
    requires forall i :: 0 <= i < |ms| ==> Sound(ms[i])
    ensures forall i :: 0 <= i < |WithoutNth(ms, slot, drive, k)| ==> Sound(WithoutNth(ms, slot, drive, k)[i])
  {
    hide Sound, On;
    if ms != [] {
      WithoutSound(ms[1..], slot, drive, k);
      if k > 0 {
        WithoutSound(ms[1..], slot, drive, k - 1);
      }
    }
  }

  lemma EjectKeeps(v: View, slot: int, drive: int)
    requires Inv(v)
    ensures Inv(Next(v, Eject(slot, drive)))
  {
    hide Project, On, Only, Sound, WithoutNth;
    var w := Next(v, Eject(slot, drive));
    if InRange(slot, drive) && v.queues[slot * 2 + drive].paths != [] {
      var q := v.queues[slot * 2 + drive];
      QueueIndex(slot, drive, slot * 2 + drive);
      ProjectWithout(v.mounts, slot, drive, q.current);
      WithoutSound(v.mounts, slot, drive, q.current);
      forall k | 0 <= k < QUEUES
        ensures w.queues[k].paths == Project(w.mounts, k / 2, k % 2) && QueueOk(w.queues[k])
      {
        QueueIndex(slot, drive, k);
        if k != slot * 2 + drive {
          OthersWithout(v.mounts, slot, drive, q.current, k / 2, k % 2);
        }
      }
    }
  }

  lemma SetCardKeeps(v: View, slot: int, kind: int)
    requires Inv(v)
    ensures Inv(Next(v, SetCard(slot, kind)))
  {
    hide Project, Sound;
  }

  lemma UnitsKeep(v: View, step: Step)
    requires Inv(v) && (step.SetUnit? || step.ClearUnit?)
    ensures Inv(Next(v, step))
  {
    hide Project, Only, UnitAt;
    var i := UnitAt(v.units, step.slot, step.unit);
    AgreeOfSame(v, Next(v, step));
  }

  lemma AgreeOfSame(v: View, w: View)
    requires QueuesAgree(v) && w.queues == v.queues && w.mounts == v.mounts
    ensures QueuesAgree(w)
    ensures CardsSound(v) && w.cards == v.cards && w.mbSlot == v.mbSlot && w.sscSlot == v.sscSlot ==> CardsSound(w)
  {
  }

  lemma {:induction false} OnCardSound(ms: seq<Mount>, cards: seq<int>, kind: int)
    requires |cards| == SLOTS
    ensures |OnCard(ms, cards, kind)| <= |ms|
    ensures forall i :: 0 <= i < |OnCard(ms, cards, kind)| ==>
              OnCard(ms, cards, kind)[i] in ms && Matches(OnCard(ms, cards, kind)[i], cards, kind)
  {
    if ms != [] {
      OnCardSound(ms[1..], cards, kind);
    }
  }

  lemma {:induction false} OnCardDistinct(us: seq<Mount>, cards: seq<int>, kind: int)
    requires |cards| == SLOTS
    requires forall i, j :: 0 <= i < j < |us| ==> us[i].slot != us[j].slot || us[i].drive != us[j].drive
    ensures var r := OnCard(us, cards, kind);
            forall i, j :: 0 <= i < j < |r| ==> r[i].slot != r[j].slot || r[i].drive != r[j].drive
  {
    hide Matches;
    if us != [] {
      OnCardDistinct(us[1..], cards, kind);
      OnCardSound(us[1..], cards, kind);
      var r := OnCard(us[1..], cards, kind);
      forall j | 0 <= j < |r| ensures us[0].slot != r[j].slot || us[0].drive != r[j].drive {
        var k :| 0 <= k < |us[1..]| && us[1..][k] == r[j];
        assert us[k + 1] == r[j];
      }
    }
  }

  lemma ReconcileKeeps(v: View)
    requires Inv(v)
    ensures Inv(Next(v, Reconcile))
  {
    hide Project, Only, Matches, OnCard;
    OnCardSound(v.mounts, v.cards, DISKII);
    OnCardSound(v.units, v.cards, SMARTPORT);
    OnCardDistinct(v.units, v.cards, SMARTPORT);
  }

  lemma SelectKeeps(v: View, step: Step)
    requires Inv(v) && (step.Swap? || step.Select? || step.SetWritable?)
    ensures Inv(Next(v, step))
  {
    hide Project, Only, Sound;
  }

  lemma NextKeeps(v: View, step: Step)
    requires Inv(v)
    ensures Inv(Next(v, step))
  {
    hide Inv, Next;
    match step
    case Insert(slot, drive, path) => InsertKeeps(v, slot, drive, path);
    case Eject(slot, drive) => EjectKeeps(v, slot, drive);
    case SetCard(slot, kind) => SetCardKeeps(v, slot, kind);
    case Reconcile => ReconcileKeeps(v);
    case _ =>
      if step.SetUnit? || step.ClearUnit? {
        UnitsKeep(v, step);
      } else {
        SelectKeeps(v, step);
      }
  }

  // ---- whole runs ----

  /** The state after startup, before any option is read. */
  function Initial(): (v: View) {
    View([], Rebuilt([]), [EMPTY, EMPTY, EMPTY, EMPTY, MOCKINGBOARD, EMPTY, DISKII, SMARTPORT], 4, 0, [])
  }

  ghost function After(v: View, steps: seq<Step>): (w: View)
    requires Inv(v)
    ensures Inv(w)
    decreases |steps|
  {
    if steps == [] then v
    else
      var k := |steps| - 1;
      var u := After(v, steps[..k]);
      NextKeeps(u, steps[k]);
      Next(u, steps[k])
  }

  lemma InitialSound()
    ensures Inv(Initial())
  {
  }

  /** What every state of every run satisfies, seen from a drive and from the cards. */
  lemma EveryRun(steps: seq<Step>, slot: int, drive: int)
    requires InRange(slot, drive)
    ensures Inv(Initial())
    ensures var v := After(Initial(), steps);
            var q := v.queues[slot * 2 + drive];
            && q.paths == Project(v.mounts, slot, drive)
            && (q.current < |q.paths| || (q.paths == [] && q.current == 0))
            && |q.writable| == |q.paths|
            && Only(v.cards, MOCKINGBOARD, v.mbSlot) && Only(v.cards, SSC, v.sscSlot)
  {
    hide Project, Initial, After;
    InitialSound();
    QueueIndex(slot, drive, slot * 2 + drive);
  }

  // ---- what steps undo and keep ----

  /** An eject right after an insert takes the inserted image out again; the drive then holds its first image. */
  lemma EjectUndoesInsert(v: View, slot: int, drive: int, path: Path)
    requires Inv(v) && Next(v, Insert(slot, drive, path)) != v
    ensures Inv(Next(v, Insert(slot, drive, path)))
    ensures var w := Next(Next(v, Insert(slot, drive, path)), Eject(slot, drive));
            && w.mounts == v.mounts
            && (forall k :: 0 <= k < QUEUES ==>
                  w.queues[k] == if k == slot * 2 + drive then v.queues[k].(current := 0) else v.queues[k])
            && w.cards == v.cards && w.mbSlot == v.mbSlot && w.sscSlot == v.sscSlot && w.units == v.units
  {
    hide Project, On, Only, Sound, WithoutNth;
    InsertKeeps(v, slot, drive, path);
    var u, m, n := Next(v, Insert(slot, drive, path)), Mount(slot, drive, path), |v.mounts|;
    QueueIndex(slot, drive, slot * 2 + drive);
    assert u.mounts[..n] == v.mounts;
    OnIs(m, slot, drive);
    WithoutIs(u.mounts, slot, drive, n);
    assert Removed(u.mounts, n) == v.mounts;
    var q := v.queues[slot * 2 + drive];
    assert Removed(q.paths + [path], |q.paths|) == q.paths;
    assert QueueOk(q) && Removed(q.writable + [false], |q.writable|) == q.writable;
  }

  /** Swapping forward and back returns to the same image; whole turns change nothing. */
  lemma SwapBack(current: nat, param: int, count: nat)
    requires current < count
    ensures SwapTo(SwapTo(current, param, true, count), -param, true, count) == current
    ensures SwapTo(current, count, true, count) == current
    ensures forall k :: 1 <= k <= count ==> SwapTo(current, k, false, count) == k - 1
  {
    ModAdd(current + param, -param, count);
    ModUnique(current, 0, current, count);
    ModUnique(current + count, 1, current, count);
    forall k | 1 <= k <= count ensures SwapTo(current, k, false, count) == k - 1 {
      ModUnique(k - 1, 0, k - 1, count);
    }
  }

  /** Once reconciled, a state needs no more reconciling, and every mount sits on its controller. */
  lemma ReconciledIsSettled(v: View)
    requires Inv(v)
    ensures var w := Next(v, Reconcile);
            && (forall i :: 0 <= i < |w.mounts| ==> Matches(w.mounts[i], w.cards, DISKII))
            && (forall i :: 0 <= i < |w.units| ==> Matches(w.units[i], w.cards, SMARTPORT))
            && Next(w, Reconcile) == w
  {
    hide Project, Only, Matches, OnCard;
    OnCardSound(v.mounts, v.cards, DISKII);
    OnCardSound(v.units, v.cards, SMARTPORT);
    OnCardAll(OnCard(v.mounts, v.cards, DISKII), v.cards, DISKII);
    OnCardAll(OnCard(v.units, v.cards, SMARTPORT), v.cards, SMARTPORT);
  }

  lemma {:induction false} OnCardAll(ms: seq<Mount>, cards: seq<int>, kind: int)
    requires |cards| == SLOTS && forall i :: 0 <= i < |ms| ==> Matches(ms[i], cards, kind)
    ensures OnCard(ms, cards, kind) == ms
  {
    hide Matches;
    if ms != [] {
      OnCardAll(ms[1..], cards, kind);
    }
  }

  /** Reconciling keeps a drive whole, in order, when its slot has a Disk II card, and empties it otherwise. */
  lemma {:induction false} ReconcileByDrive(ms: seq<Mount>, cards: seq<int>, slot: int, drive: int)
    requires |cards| == SLOTS && InRange(slot, drive)
    ensures Project(OnCard(ms, cards, DISKII), slot, drive)
            == if cards[slot] == DISKII then Project(ms, slot, drive) else []
  {
    if ms != [] {
      ReconcileByDrive(ms[1..], cards, slot, drive);
      var r := OnCard(ms[1..], cards, DISKII);
      assert ([ms[0]] + r)[1..] == r && [] + r == r;
    }
  }

  /** After an eject the drive holds the next image of its queue, or the first one again. */
  lemma EjectShowsNext(v: View, slot: int, drive: int)
    requires Inv(v) && InRange(slot, drive) && |v.queues[slot * 2 + drive].paths| >= 2
    ensures var q, r := v.queues[slot * 2 + drive], Next(v, Eject(slot, drive)).queues[slot * 2 + drive];
            var next := if q.current + 1 < |q.paths| then q.current + 1 else 0;
            && r.current < |r.paths| == |r.writable| && next < |q.writable|
            && r.paths[r.current] == q.paths[next] && r.writable[r.current] == q.writable[next]
  {
    hide Project, Only, WithoutNth;
    assert QueueOk(v.queues[slot * 2 + drive]);
  }

  // ---- SmartPort units as a finite map ----

  function UnitPath(us: seq<Mount>, slot: int, unit: int): Path {
    var i := UnitAt(us, slot, unit);
    if i < |us| then us[i].path else ""
  }

  lemma UnitAtIs(us: seq<Mount>, slot: int, unit: int, i: nat)
    requires i <= |us| && (i < |us| ==> On(us[i], slot, unit))
    requires forall j :: 0 <= j < i ==> !On(us[j], slot, unit)
    ensures UnitAt(us, slot, unit) == i
  {
    hide UnitAt, On;
  }

  /** Setting a unit's path changes that unit only. */
  lemma SetUnitRefines(v: View, slot: int, unit: int, path: Path, s: int, u: int)
    requires Inv(v) && path != "" && InRange(slot, unit)
    requires UnitPath(v.units, slot, unit) != "" || |v.units| < MAX_MOUNTS
    ensures UnitPath(Next(v, SetUnit(slot, unit, path)).units, s, u)
            == if s == slot && u == unit then path else UnitPath(v.units, s, u)
  {
    hide UnitAt, Inv, UnitsSound;
    InvShape(v);
    var us, after := v.units, Next(v, SetUnit(slot, unit, path)).units;
    var i, k := UnitAt(us, slot, unit), UnitAt(us, s, u);
    if s == slot && u == unit {
      UnitAtIs(after, s, u, i);
    } else {
      UnitAtIs(after, s, u, if k < |us| then k else |after|);
    }
  }

  /** Clearing a unit empties that unit only. */
  lemma ClearUnitRefines(v: View, slot: int, unit: int, s: int, u: int)
    requires Inv(v)
    ensures UnitPath(Next(v, ClearUnit(slot, unit)).units, s, u)
            == if s == slot && u == unit then "" else UnitPath(v.units, s, u)
  {
    hide UnitAt, Inv, Sound;
    InvShape(v);
    var us, after := v.units, Next(v, ClearUnit(slot, unit)).units;
    var i, k := UnitAt(us, slot, unit), UnitAt(us, s, u);
    if s == slot && u == unit {
      UnitAtIs(after, s, u, |after|);
    } else if i < |us| {
      UnitAtIs(after, s, u, if k == |us| then |after| else if k < i then k else k - 1);
    }
  }
}
