/**
 * The decision logic of the gear manager (UGearManagerComponent): which hand
 * a weapon goes to, the bounded list of selectable weapons, cycling to the
 * next weapon, and the queue of pending gear changes that advance one step
 * at a time. Spawning, attaching, montages and timers are not modelled.
 */
module Gear {
  import opened Tags
  import opened Wrappers

  // ------------------------------------------------------------ hand choice

  /** EHandCompatibility. */
  datatype HandCompatibility = BothHands | OnlyMainHand | TwoHanded | OnlyOffhand | AnyHand | NoHand

  /** The gear slot a weapon is put in; NoSlot is the null slot pointer. */
  datatype HandSlot = MainHand | Offhand | NoSlot

  /** What the hand choice reads of a weapon already held in the main hand. */
  datatype HeldWeapon = HeldWeapon(compatibility: HandCompatibility, lowPriority: bool)

  predicate IsTwoHanded(w: Option<HeldWeapon>)
  {
    w.Some? && w.value.compatibility == TwoHanded
  }

  /**
   * GetHandSlotToUse. Main-hand-only and two-handed weapons take the main
   * hand; an offhand-only weapon takes the offhand unless a two-handed weapon
   * is held; a weapon for both hands takes the free offhand next to a
   * one-handed, normal-priority main-hand weapon and the main hand otherwise.
   * The source's switch has no case for AnyHand or None, which get no slot.
   */
  function GetHandSlotToUse(compatibility: HandCompatibility, mainhand: Option<HeldWeapon>, offhandHeld: bool): (r: HandSlot)
    ensures compatibility == OnlyMainHand || compatibility == TwoHanded ==> r == MainHand
    ensures compatibility == OnlyOffhand ==> r != MainHand && (r == NoSlot <==> IsTwoHanded(mainhand))
    ensures compatibility == BothHands ==> r != NoSlot
    ensures compatibility == AnyHand || compatibility == NoHand ==> r == NoSlot
    // nothing goes to the offhand beside a two-handed weapon, or onto a held offhand weapon for both hands
    ensures r == Offhand ==> !IsTwoHanded(mainhand)
    ensures r == Offhand && compatibility == BothHands ==> !offhandHeld && mainhand.Some? && !mainhand.value.lowPriority
  {
    match compatibility
    case OnlyMainHand => MainHand
    case TwoHanded => MainHand
    case OnlyOffhand => if IsTwoHanded(mainhand) then NoSlot else Offhand
    case BothHands =>
      if mainhand.Some? && !mainhand.value.lowPriority && mainhand.value.compatibility != TwoHanded && !offhandHeld
      then Offhand else MainHand
    case AnyHand => NoSlot
    case NoHand => NoSlot
  }

  // ------------------------------------------------------------ selectable weapons

  predicate NoDuplicates<T(==)>(s: seq<T>)
  {
    forall i, j :: 0 <= i < j < |s| ==> s[i] != s[j]
  }

  datatype Selection = Selection(weapons: seq<Tag>, index: int)

  /**
   * The list half of AddAndSetSelectedWeapon: a weapon already listed keeps
   * its place; a new one is appended, after evicting the earliest entry when
   * the list is exactly at capacity. `index` is the weapon's entry. An
   * invalid weapon changes nothing.
   */
  function AddSelectableWeapon(weapons: seq<Tag>, weapon: Tag, capacity: int): (r: Selection)
    requires |weapons| == capacity ==> |weapons| > 0
    ensures !IsValid(weapon) ==> r == Selection(weapons, -1)
    ensures IsValid(weapon) ==> 0 <= r.index < |r.weapons| && r.weapons[r.index] == weapon
    ensures weapon in weapons ==> r.weapons == weapons
    // a new weapon goes last, after the earliest entry is dropped from a full list
    ensures IsValid(weapon) && weapon !in weapons ==>
              && r.index == |r.weapons| - 1
              && r.weapons[..r.index] == (if |weapons| == capacity then weapons[1..] else weapons)
    // the list stays within capacity and free of duplicates
    ensures |weapons| <= capacity ==> |r.weapons| <= capacity
    ensures NoDuplicates(weapons) ==> NoDuplicates(r.weapons)
  {
    if !IsValid(weapon) then Selection(weapons, -1)
    else
      match IndexOf(weapons, weapon)
      case Some(i) => Selection(weapons, i)
      case None =>
        var kept := if |weapons| == capacity then weapons[1..] else weapons;
        Selection(kept + [weapon], |kept|)
  }

  /** TArray::Find: the first index holding the value. */
  function IndexOf<T(==)>(s: seq<T>, x: T): (r: Option<nat>)
    ensures r.Some? ==> r.value < |s| && s[r.value] == x
    ensures r.None? <==> x !in s
  {
    if |s| == 0 then None
    else if s[0] == x then Some(0)
    else
      match IndexOf(s[1..], x)
      case None => None
      case Some(i) => Some(i + 1)
  }

  /**
   * SelectNextActiveWeaponServer: the entry after the active one, wrapping to
   * the first; None (nothing selected) when the list is empty.
   */
  function NextWeaponIndex(active: int, count: int): (r: Option<int>)
    ensures count <= 0 ==> r.None?
    ensures count > 0 && -1 <= active ==> r.Some? && 0 <= r.value < count
    ensures count > 0 && -1 <= active < count - 1 ==> r == Some(active + 1)
    ensures count > 0 && active == count - 1 ==> r == Some(0)
  {
    if count <= 0 then None
    else Some(CRem(active + 1, count))
  }

  /** `steps` selections of the next weapon, from `active`. */
  function Cycle(active: int, count: int, steps: nat): int
    requires count > 0 && 0 <= active < count
    decreases steps
  {
    if steps == 0 then active
    else Cycle(NextWeaponIndex(active, count).value, count, steps - 1)
  }

  /**
   * Selecting the next weapon `steps` times walks forward through the list,
   * wrapping once past its end; as many selections as weapons come back to the start.
   */
  lemma {:induction false} CycleReturns(active: int, count: int, steps: nat)
    requires count > 0 && 0 <= active < count && steps <= count
    ensures Cycle(active, count, steps) == if active + steps < count then active + steps else active + steps - count
    ensures steps == count ==> Cycle(active, count, steps) == active
    decreases steps
  {
    if steps > 0 {
      var next := NextWeaponIndex(active, count).value;
      CycleReturns(next, count, steps - 1);
    }
  }

  // ------------------------------------------------------------ gear change queue

  /** EPendingGearChangeType. */
  datatype ChangeType = NoChange | Equip | Unequip | WeaponSelect

  /** EGearChangeStep, in the order its switch handles the steps. */
  datatype ChangeStep = Request | PlayAnim | Apply

  /** FGearChangeTransaction: what changes in which slot, and the step to run next. */
  datatype Transaction = Transaction(changeType: ChangeType, slot: Tag, item: Tag, nextStep: ChangeStep)

  predicate SameKey(a: Transaction, b: Transaction)
  {
    a.slot == b.slot && a.changeType == b.changeType
  }

  /** RemoveAll with the same-slot-same-type predicate: the others stay, in order. */
  function DropSameKey(pending: seq<Transaction>, tx: Transaction): (r: seq<Transaction>)
    ensures |r| <= |pending|
    ensures forall t :: t in r <==> t in pending && !SameKey(t, tx)
  {
    if |pending| == 0 then []
    else if SameKey(pending[0], tx) then DropSameKey(pending[1..], tx)
    else [pending[0]] + DropSameKey(pending[1..], tx)
  }

  /** At most one pending change per slot and change type. */
  predicate OnePerKey(pending: seq<Transaction>)
  {
    forall i, j :: 0 <= i < j < |pending| ==> !SameKey(pending[i], pending[j])
  }

  /**
   * QueueGearChange: a new change replaces every pending change of the same
   * slot and type and goes to the back of the queue. (Starting the queue when
   * idle is ProcessStep.)
   */
  function QueueGearChange(pending: seq<Transaction>, tx: Transaction): (r: seq<Transaction>)
    ensures |r| > 0 && r[|r| - 1] == tx
    ensures forall t :: t in r[..|r| - 1] <==> t in pending && !SameKey(t, tx)
    ensures OnePerKey(pending) ==> OnePerKey(r)
  {
    var kept := DropSameKey(pending, tx);
    DropKeepsOnePerKey(pending, tx);
    assert (kept + [tx])[..|kept|] == kept;
    kept + [tx]
  }

  lemma {:induction false} DropKeepsOnePerKey(pending: seq<Transaction>, tx: Transaction)
    ensures OnePerKey(pending) ==> OnePerKey(DropSameKey(pending, tx))
  {
    if |pending| > 0 && OnePerKey(pending) {
      var rest := pending[1..];
      assert OnePerKey(rest);
      DropKeepsOnePerKey(rest, tx);
      if !SameKey(pending[0], tx) {
        var d := DropSameKey(rest, tx);
        forall t | t in d
          ensures !SameKey(pending[0], t)
        {
          var j :| 0 <= j < |rest| && rest[j] == t;
          assert pending[j + 1] == t;
        }
      }
    }
  }

  /** Steps a change still has to run, counting the one at its front. */
  function StepsLeft(s: ChangeStep): nat
  {
    match s
    case Request => 3
    case PlayAnim => 2
    case Apply => 1
  }

  function Work(pending: seq<Transaction>): nat
  {
    if |pending| == 0 then 0 else StepsLeft(pending[0].nextStep) + Work(pending[1..])
  }

  datatype Progress = Progress(pending: seq<Transaction>, active: bool)

  /**
   * One turn of ProcessNextGearChange: an empty queue ends the active
   * transaction; otherwise the front change runs its step and is popped after
   * Apply, or stays in front with its step advanced.
   */
  function ProcessStep(pending: seq<Transaction>): (r: Progress)
    ensures r.active <==> |pending| > 0
    ensures |pending| > 0 && pending[0].nextStep == Apply ==> r.pending == pending[1..]
    ensures |pending| > 0 && pending[0].nextStep != Apply ==>
              && |r.pending| == |pending| && r.pending[1..] == pending[1..]
              && r.pending[0] == pending[0].(nextStep := if pending[0].nextStep == Request then PlayAnim else Apply)
    // every turn on a non-empty queue does one step of work
    ensures |pending| > 0 ==> Work(r.pending) == Work(pending) - 1
  {
    if |pending| == 0 then Progress(pending, false)
    else
      var front := pending[0];
      match front.nextStep
      case Apply => Progress(pending[1..], true)
      case Request => Progress([front.(nextStep := PlayAnim)] + pending[1..], true)
      case PlayAnim => Progress([front.(nextStep := Apply)] + pending[1..], true)
  }

  /** `n` turns of processing. */
  function ProcessSteps(pending: seq<Transaction>, n: nat): seq<Transaction>
    decreases n
  {
    if n == 0 then pending else ProcessSteps(ProcessStep(pending).pending, n - 1)
  }

  /** The queue is empty after exactly as many turns as it has steps left, and not before. */
  lemma {:induction false} QueueDrains(pending: seq<Transaction>)
    ensures ProcessSteps(pending, Work(pending)) == []
    ensures forall n :: 0 <= n < Work(pending) ==> ProcessSteps(pending, n) != []
    decreases Work(pending)
  {
    if |pending| > 0 {
      var next := ProcessStep(pending).pending;
      QueueDrains(next);
      forall n | 0 <= n < Work(pending)
        ensures ProcessSteps(pending, n) != []
      {
        if n > 0 {
          assert ProcessSteps(pending, n) == ProcessSteps(next, n - 1);
        }
      }
    }
  }
}
