/** Nonces: numbers for inodes, log segments and checkpoint objects, handed out
from ranges reserved in the checkpoint header, across crashes and restarts.
*/
module Nonces {
  import opened Common

  /** The two counters a running volume keeps. */
  datatype Memory = Memory(nextNonce: nat, reservedToNonce: nat)

  /** `header` is the reservation recorded in the store, `memory` is None while
      the volume is down, `issued` are the nonces handed out so far, and `late` are
      the reservations of posts that have failed and may still come to be applied. */
  datatype Volume = Volume(header: nat, memory: Option<Memory>, issued: seq<nat>, late: set<nat>)

  /** How posting a header can end: done, or an error that does or does not hide that it was done. */
  datatype Post = Done | FailedApplied | FailedNotApplied

  datatype Event = Fetch(post: Post) | Checkpoint(post: Post) | Crash | Restart | Late(n: nat)

  const FirstNonceToProvide: nat := 2

  function Format(): Volume {
    Volume(FirstNonceToProvide - 1, None, [], {})
  }

  function Issue(v: Volume, m: Memory): Volume {
    v.(memory := Some(m.(nextNonce := m.nextNonce + 1)), issued := v.issued + [m.nextNonce])
  }

  function FetchStep(v: Volume, m: Memory, post: Post, reserve: nat): Volume {
    if m.nextNonce != m.reservedToNonce then Issue(v, m)
    else
      var newReserved := m.reservedToNonce + reserve;
      match post
      case Done => Issue(v.(header := newReserved), m.(reservedToNonce := newReserved))
      case FailedApplied => v.(header := newReserved)
      case FailedNotApplied => v.(late := v.late + {newReserved})
  }

  /** A checkpoint posts the reservation kept in memory; if that fails the volume shuts down. */
  function CheckpointStep(v: Volume, m: Memory, post: Post): Volume {
    match post
    case Done => v.(header := m.reservedToNonce)
    case FailedApplied => v.(header := m.reservedToNonce, memory := None)
    case FailedNotApplied => v.(memory := None, late := v.late + {m.reservedToNonce})
  }

  function Step(v: Volume, e: Event, reserve: nat): Volume {
    match e
    case Fetch(post) => if v.memory.None? then v else FetchStep(v, v.memory.value, post, reserve)
    case Checkpoint(post) => if v.memory.None? then v else CheckpointStep(v, v.memory.value, post)
    case Crash => v.(memory := None)
    case Restart => if v.memory.None? then v.(memory := Some(Memory(v.header, v.header))) else v
    case Late(n) => if n in v.late then v.(header := n, late := v.late - {n}) else v
  }

  function Run(v: Volume, events: seq<Event>, reserve: nat): Volume {
    if events == [] then v else Step(Run(v, events[..|events| - 1], reserve), events[|events| - 1], reserve)
  }

  ghost predicate Ascending(s: seq<nat>) {
    forall i, j :: 0 <= i < j < |s| ==> s[i] < s[j]
  }

  /** What every reachable state satisfies: nothing issued reaches the next nonce, which the recorded reservation
      covers. */
  ghost predicate Safe(v: Volume) {
    && Ascending(v.issued)
    && 0 < v.header
    && (forall i :: 0 <= i < |v.issued| ==> 0 < v.issued[i] < v.header)
    && (v.memory.Some? ==>
         && 0 < v.memory.value.nextNonce <= v.memory.value.reservedToNonce <= v.header
         && (forall i :: 0 <= i < |v.issued| ==> v.issued[i] < v.memory.value.nextNonce))
  }

  /** A post applied late still reserves as much as the volume counts on, or as was handed out if it is down. */
  ghost predicate Covers(v: Volume, n: nat) {
    if v.memory.Some? then v.memory.value.reservedToNonce <= n
    else 0 < n && forall i :: 0 <= i < |v.issued| ==> v.issued[i] < n
  }

  ghost predicate InTime(v: Volume, e: Event) {
    e.Late? && e.n in v.late ==> Covers(v, e.n)
  }

  /** An event keeps all issued nonces below the next one and within the reservation exactly
      when it is not a post applied too late. */
  lemma StepSafeIff(v: Volume, e: Event, reserve: nat)
    requires Safe(v) && reserve > 0
    ensures Safe(Step(v, e, reserve)) <==> InTime(v, e)
  {
  }

  /** Every post of the run that is applied late is so in time. */
  ghost predicate AllInTime(v: Volume, events: seq<Event>, reserve: nat) {
    forall k :: 0 <= k < |events| ==> InTime(Run(v, events[..k], reserve), events[k])
  }

  lemma {:induction false} RunSafe(v: Volume, events: seq<Event>, reserve: nat)
    requires Safe(v) && reserve > 0 && AllInTime(v, events, reserve)
    ensures Safe(Run(v, events, reserve))
  {
    if events != [] {
      var k := |events| - 1;
      assert AllInTime(v, events[..k], reserve) by {
        assert forall j :: 0 <= j < k ==> events[..k][..j] == events[..j];
      }
      RunSafe(v, events[..|events| - 1], reserve);
      StepSafeIff(Run(v, events[..|events| - 1], reserve), events[|events| - 1], reserve);
    }
  }

  lemma RunSnoc(v: Volume, events: seq<Event>, e: Event, reserve: nat)
    ensures Run(v, events + [e], reserve) == Step(Run(v, events, reserve), e, reserve)
  {
    assert (events + [e])[..|events|] == events;
  }

  /** A volume that reserves nothing hands out the same number after a restart. */
  lemma ReservingNothingRepeats() returns (events: seq<Event>)
    ensures Run(Format(), events, 0).issued == [1, 1] && forall k :: 0 <= k < |events| ==> !events[k].Late?
  {
    var e0: seq<Event> := [];
    var e1, e2, e3, e4 := e0 + [Restart], e0 + [Restart] + [Fetch(Done)],
        e0 + [Restart] + [Fetch(Done)] + [Crash], e0 + [Restart] + [Fetch(Done)] + [Crash] + [Restart];
    RunSnoc(Format(), e0, Restart, 0);
    RunSnoc(Format(), e1, Fetch(Done), 0);
    RunSnoc(Format(), e2, Crash, 0);
    RunSnoc(Format(), e3, Restart, 0);
    RunSnoc(Format(), e4, Fetch(Done), 0);
    events := e4 + [Fetch(Done)];
  }

  /** Over all runs in which no failed post is applied too late, no nonce is issued twice
      and none is 0, exactly when ranges are reserved at all. */
  lemma NoncesNeverRepeatIff(reserve: nat)
    ensures reserve > 0 <==>
            forall events :: AllInTime(Format(), events, reserve) ==> Distinct(Run(Format(), events, reserve).issued)
    ensures reserve > 0 ==>
              forall events :: AllInTime(Format(), events, reserve) ==> 0 !in Run(Format(), events, reserve).issued
  {
    if reserve > 0 {
      forall events | AllInTime(Format(), events, reserve) ensures Safe(Run(Format(), events, reserve)) {
        RunSafe(Format(), events, reserve);
      }
    } else {
      var events := ReservingNothingRepeats();
      var issued := Run(Format(), events, 0).issued;
      assert issued[0] == issued[1] && AllInTime(Format(), events, 0);
    }
  }

  /** The volume stays up throughout. */
  predicate OneLife(events: seq<Event>) {
    forall k :: 0 <= k < |events| ==> events[k].Fetch? || events[k].Late? || events[k] == Checkpoint(Done)
  }

  function Span(from: nat, to: nat): seq<nat>
    requires from <= to
  {
    seq(to - from, k => from + k)
  }

  /** From one restart to the next shutdown the nonces are consecutive, and a further range is
      reserved only when the last one is used up. */
  lemma {:induction false} LifeIsConsecutive(v: Volume, events: seq<Event>, reserve: nat)
    requires v.memory.Some? && v.memory.value.nextNonce <= v.memory.value.reservedToNonce
    requires reserve > 0 && OneLife(events)
    ensures var w := Run(v, events, reserve);
            && w.memory.Some? && v.memory.value.nextNonce <= w.memory.value.nextNonce <= w.memory.value.reservedToNonce
            && w.issued == v.issued + Span(v.memory.value.nextNonce, w.memory.value.nextNonce)
            && (exists ranges: nat ::
                 w.memory.value.reservedToNonce == v.memory.value.reservedToNonce + ranges * reserve)
            && (w.memory.value.reservedToNonce == v.memory.value.reservedToNonce
                || w.memory.value.reservedToNonce - reserve < w.memory.value.nextNonce)
  {
    if events == [] {
      assert v.memory.value.reservedToNonce == v.memory.value.reservedToNonce + 0 * reserve;
    } else {
      var k := |events| - 1;
      LifeIsConsecutive(v, events[..k], reserve);
      var w := Run(v, events[..k], reserve);
      var ranges: nat :| w.memory.value.reservedToNonce == v.memory.value.reservedToNonce + ranges * reserve;
      assert w.memory.value.reservedToNonce + reserve == v.memory.value.reservedToNonce + (ranges + 1) * reserve;
      assert Span(v.memory.value.nextNonce, w.memory.value.nextNonce) + [w.memory.value.nextNonce]
          == Span(v.memory.value.nextNonce, w.memory.value.nextNonce + 1);
    }
  }

  /** `n` nonces are fetched, every post done. */
  function Fetches(n: nat): seq<Event> {
    seq(n, _ => Fetch(Done))
  }

  function UpTo(n: nat): seq<nat> {
    seq(n, k => k + 1)
  }

  /** The first reservation failed at first and was then made good, and `k` nonces were handed out of it. */
  function Using(k: nat, reserve: nat): Volume {
    Volume(1 + reserve, Some(Memory(1 + k, 1 + reserve)), UpTo(k), {1 + reserve})
  }

  lemma FirstReservationFails(reserve: nat)
    ensures Run(Format(), [Restart, Fetch(FailedNotApplied)], reserve) ==
            Volume(1, Some(Memory(1, 1)), [], {1 + reserve})
  {
    var e0: seq<Event> := [];
    RunSnoc(Format(), e0, Restart, reserve);
    RunSnoc(Format(), e0 + [Restart], Fetch(FailedNotApplied), reserve);
    assert [Restart, Fetch(FailedNotApplied)] == e0 + [Restart] + [Fetch(FailedNotApplied)];
  }

  lemma {:induction false} UsingReached(k: nat, reserve: nat)
    requires 1 <= k <= reserve
    ensures Run(Format(), [Restart, Fetch(FailedNotApplied)] + Fetches(k), reserve) == Using(k, reserve)
  {
    var start := [Restart, Fetch(FailedNotApplied)];
    assert start + Fetches(k) == start + Fetches(k - 1) + [Fetch(Done)];
    RunSnoc(Format(), start + Fetches(k - 1), Fetch(Done), reserve);
    if k == 1 {
      FirstReservationFails(reserve);
      assert start + Fetches(0) == start;
      assert UpTo(1) == [1];
    } else {
      UsingReached(k - 1, reserve);
      assert UpTo(k) == UpTo(k - 1) + [k];
    }
  }

  /** Whatever the step: a post that failed is applied after a later one, the recorded
      reservation shrinks, and the next restart hands out a nonce again. */
  lemma LatePostRepeats(reserve: nat) returns (events: seq<Event>)
    requires reserve > 0
    ensures Run(Format(), events, reserve).issued == UpTo(reserve + 1) + [reserve + 1]
    ensures !Distinct(Run(Format(), events, reserve).issued) && !AllInTime(Format(), events, reserve)
  {
    UsingReached(reserve, reserve);
    var e0 := [Restart, Fetch(FailedNotApplied)] + Fetches(reserve);
    var e1 := e0 + [Fetch(Done)];
    var e2 := e1 + [Late(1 + reserve)];
    var e3 := e2 + [Crash];
    var e4 := e3 + [Restart];
    events := e4 + [Fetch(Done)];
    RunSnoc(Format(), e0, Fetch(Done), reserve);
    RunSnoc(Format(), e1, Late(1 + reserve), reserve);
    RunSnoc(Format(), e2, Crash, reserve);
    RunSnoc(Format(), e3, Restart, reserve);
    RunSnoc(Format(), e4, Fetch(Done), reserve);
    assert UpTo(reserve + 1) == UpTo(reserve) + [reserve + 1];
    var issued := Run(Format(), events, reserve).issued;
    assert issued[reserve] == issued[reserve + 1];
    if AllInTime(Format(), events, reserve) {
      RunSafe(Format(), events, reserve);
    }
  }

  /** The first nonce of a new volume is 1, which is the root directory's inode number. */
  lemma FirstNonceIsRootInode(reserve: nat)
    requires reserve > 0
    ensures Run(Format(), [Restart, Fetch(Done)], reserve).issued == [RootDirInodeNumber]
  {
    assert [Restart, Fetch(Done)][..1] == [Restart];
    assert [Restart][..0] == [];
    assert Run(Format(), [Restart], reserve) == Step(Format(), Restart, reserve);
  }

  /** The running volume. */
  class HeadhunterVolume {
    const nonceValuesToReserve: nat
    var header: nat
    var running: bool
    var nextNonce: nat
    var reservedToNonce: nat
    ghost var issued: seq<nat>
    ghost var late: set<nat>

    ghost function View(): Volume
      reads this
    {
      Volume(header, if running then Some(Memory(nextNonce, reservedToNonce)) else None, issued, late)
    }

    /** A volume just formatted. */
    constructor (nonceValuesToReserve: nat)
      ensures View() == Format() && this.nonceValuesToReserve == nonceValuesToReserve && Safe(View())
    {
      this.nonceValuesToReserve := nonceValuesToReserve;
      header, running, nextNonce, reservedToNonce := FirstNonceToProvide - 1, false, 0, 0;
      issued, late := [], {};
    }

    /** getCheckpoint: numbering restarts at the end of the recorded reservation. */
    method GetCheckpoint()
      requires !running
      modifies this
      ensures View() == Step(old(View()), Restart, nonceValuesToReserve)
      ensures running && nextNonce == reservedToNonce == header == old(header)
    {
      reservedToNonce := header;
      nextNonce := reservedToNonce;
      running := true;
    }

    /** fetchNonceWhileLocked: reserves a further range when the last one is used up. */
    method FetchNonceWhileLocked(post: Post) returns (ok: bool, nonce: nat)
      requires running
      modifies this
      ensures View() == Step(old(View()), Fetch(post), nonceValuesToReserve)
      ensures ok <==> old(nextNonce != reservedToNonce) || post == Done
      ensures issued == old(issued) + if ok then [nonce] else []
      ensures running && nextNonce == old(nextNonce) + (if ok then 1 else 0) && (ok ==> nonce == old(nextNonce))
      ensures var used := old(nextNonce == reservedToNonce);
              var reserved := old(reservedToNonce) + nonceValuesToReserve;
              && reservedToNonce == (if used && ok then reserved else old(reservedToNonce))
              && header == (if used && post != FailedNotApplied then reserved else old(header))
              && late == old(late) + if used && post == FailedNotApplied then {reserved} else {}
      ensures nonceValuesToReserve > 0 && Safe(old(View())) ==>
                Safe(View()) && (ok ==> nonce != 0 && nonce !in old(issued))
    {
      if nonceValuesToReserve > 0 && Safe(View()) {
        StepSafeIff(View(), Fetch(post), nonceValuesToReserve);
      }
      nonce := 0;
      if nextNonce == reservedToNonce {
        var newReservedToNonce := reservedToNonce + nonceValuesToReserve;
        if post != FailedNotApplied {
          header := newReservedToNonce;
        } else {
          late := late + {newReservedToNonce};
        }
        if post != Done {
          return false, nonce;
        }
        reservedToNonce := newReservedToNonce;
      }
      nonce := nextNonce;
      nextNonce := nextNonce + 1;
      issued := issued + [nonce];
      ok := true;
    }

    /** The header post at the end of putCheckpoint. */
    method PostCheckpointHeader(post: Post)
      requires running
      modifies this
      ensures View() == Step(old(View()), Checkpoint(post), nonceValuesToReserve)
      ensures running <==> post == Done
      ensures header == if post == FailedNotApplied then old(header) else old(reservedToNonce)
      ensures late == old(late) + if post == FailedNotApplied then {old(reservedToNonce)} else {}
      ensures unchanged(`issued, `nextNonce, `reservedToNonce)
    {
      if post != FailedNotApplied {
        header := reservedToNonce;
      } else {
        late := late + {reservedToNonce};
      }
      if post != Done {
        running := false;
      }
    }
  }
}
