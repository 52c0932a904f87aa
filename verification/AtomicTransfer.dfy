/** `Fetch._scp_from_atomic` in h2kvm/converters/flatten.py: a download into a `.part`
    file that is renamed over the destination, against an arbitrary transfer step. */
module AtomicTransfer {

  type Content = seq<bv8>

  datatype File = Missing | Present(content: Content)

  /** The remote size, when one of the probes answers. */
  datatype RemoteSize = Unknown | Known(bytes: int)

  /** What `scp_from` does to the `.part` file before it returns or raises. */
  datatype Effect = Writes(content: Content) | Removes | Untouched

  /** One attempt, as the world plays it: whether the unlink before it works, what the
      transfer leaves behind, and which of the three calls raise. */
  datatype Attempt = Attempt(unlinkOk: bool, effect: Effect, scpOk: bool, statOk: bool, replaceOk: bool)

  /** The whole run: whether the stat of an existing destination works, whether the
      unlinks before and after the loop work, and the attempts. */
  datatype World = World(statOk: bool, firstUnlinkOk: bool, attempts: nat -> Attempt, lastUnlinkOk: bool)

  datatype Outcome = Skipped | Replaced | Failed

  const MAX_TRIES: nat := 4

  function Unlinked(part: File, ok: bool): File
  {
    if ok then Missing else part
  }

  function Transferred(part: File, effect: Effect): File
  {
    match effect
    case Writes(content) => Present(content)
    case Removes => Missing
    case Untouched => part
  }

  /** The `.part` file after the transfer of attempt `k`, if no earlier one was renamed. */
  function PartAfter(part: File, world: World, k: nat): File
  {
    var before := if k == 0 then Unlinked(part, world.firstUnlinkOk) else PartAfter(part, world, k - 1);
    Transferred(Unlinked(before, world.attempts(k).unlinkOk), world.attempts(k).effect)
  }

  /** A download fit to become the destination: not empty, and as long as the remote
      file where that length is known. */
  predicate Sound(file: File, size: RemoteSize)
  {
    && file.Present?
    && file.content != []
    && (size.Known? ==> |file.content| == size.bytes)
  }

  /** Attempt `k` goes through. */
  predicate GoesThrough(part: File, world: World, size: RemoteSize, k: nat)
  {
    var a := world.attempts(k);
    a.scpOk && a.statOk && a.replaceOk && Sound(PartAfter(part, world, k), size)
  }

  /** The attempt raised, or left nothing, nothing but an empty file, or one of the wrong size. */
  predicate FellShort(a: Attempt, left: File, size: RemoteSize)
  {
    || !a.scpOk || !a.statOk || !a.replaceOk
    || left.Missing? || |left.content| == 0 || (size.Known? && |left.content| != size.bytes)
  }

  /** The destination and its `.part` file. */
  class Download {
    var dest: File
    var part: File

    /** Every state the destination has been in, oldest first. */
    ghost var history: seq<File>

    ghost predicate Valid()
      reads this
    {
      history != [] && history[|history| - 1] == dest
    }

    constructor (dest: File, part: File)
      ensures Valid() && this.dest == dest && this.part == part && history == [dest]
    {
      this.dest, this.part := dest, part;
      history := [dest];
    }

    /** `_unlink_quiet`: a failing unlink is swallowed. */
    method UnlinkQuiet(ok: bool)
      modifies this`part
      ensures part == Unlinked(old(part), ok)
    {
      if part.Present? && ok { part := Missing; }
    }

    method Scp(effect: Effect)
      modifies this`part
      ensures part == Transferred(old(part), effect)
    {
      match effect
      case Writes(content) => part := Present(content);
      case Removes => part := Missing;
      case Untouched =>
    }

    /** `tmp.replace(local)`: the rename is atomic, so a failing one changes nothing. */
    method Replace(ok: bool)
      requires Valid()
      modifies this
      ensures Valid()
      ensures ok ==> dest == old(part) && part == Missing && history == old(history) + [old(part)]
      ensures !ok ==> dest == old(dest) && part == old(part) && history == old(history)
    {
      if ok {
        dest, part := part, Missing;
        history := history + [dest];
      }
    }

    /** One pass of the loop body; `done` is its `return`. */
    method TryOnce(a: Attempt, size: RemoteSize) returns (done: bool)
      requires Valid()
      modifies this
      ensures Valid()
      ensures var left := Transferred(Unlinked(old(part), a.unlinkOk), a.effect);
        && done == (a.scpOk && a.statOk && a.replaceOk && Sound(left, size))
        && (done ==> dest == left && part == Missing && history == old(history) + [left])
        && (!done ==> dest == old(dest) && part == left && history == old(history))
    {
      UnlinkQuiet(a.unlinkOk);
      Scp(a.effect);
      done := false;
      if a.scpOk && part.Present? && a.statOk {
        var sz := |part.content|;
        if sz != 0 && !(size.Known? && sz != size.bytes) {
          Replace(a.replaceOk);
          done := a.replaceOk;
        }
      }
    }

    /** The destination never holds anything but its old content or one sound download;
        the first attempt that can go through is the last one made. */
    method ScpFromAtomic(size: RemoteSize, world: World) returns (outcome: Outcome, transfers: nat)
      requires Valid()
      modifies this
      ensures Valid() && transfers <= 4
      ensures old(history) <= history
      ensures forall i | |old(history)| <= i < |history| ::
                && history[i].Present? && |history[i].content| > 0
                && (size.Known? ==> |history[i].content| == size.bytes)
      ensures outcome.Skipped? <==>
                old(dest).Present? && world.statOk && size == Known(|old(dest).content|)
      ensures outcome.Skipped? ==> transfers == 0 && part == old(part) && history == old(history)
      ensures outcome.Replaced? <==>
                !outcome.Skipped? && exists k: nat | k < MAX_TRIES :: GoesThrough(old(part), world, size, k)
      ensures outcome.Replaced? ==>
                && transfers > 0
                && world.attempts(transfers - 1).scpOk
                && world.attempts(transfers - 1).statOk && world.attempts(transfers - 1).replaceOk
                && GoesThrough(old(part), world, size, transfers - 1)
                && (forall k: nat | k < transfers - 1 :: !GoesThrough(old(part), world, size, k))
                && dest == PartAfter(old(part), world, transfers - 1)
                && part == Missing
                && history == old(history) + [dest]
      ensures outcome.Failed? ==>
                && transfers == MAX_TRIES
                && history == old(history)
                && part == Unlinked(PartAfter(old(part), world, MAX_TRIES - 1), world.lastUnlinkOk)
      ensures outcome.Failed? ==>
                forall k: nat | k < 4 :: FellShort(world.attempts(k), PartAfter(old(part), world, k), size)
      // Only a skipping run, or a last unlink that fails, leaves a `.part` file.
      ensures part == Missing || outcome.Skipped? || (outcome.Failed? && !world.lastUnlinkOk)
      // An empty remote file is never downloaded.
      ensures size == Known(0) ==> !outcome.Replaced?
    {
      transfers := 0;
      if size.Known? && dest.Present? && world.statOk && |dest.content| == size.bytes {
        return Skipped, transfers;
      }
      ghost var part0 := part;
      UnlinkQuiet(world.firstUnlinkOk);
      while transfers < MAX_TRIES
        invariant transfers <= MAX_TRIES && Valid()
        invariant history == old(history)
        invariant part ==
                    if transfers == 0 then Unlinked(part0, world.firstUnlinkOk)
                    else PartAfter(part0, world, transfers - 1)
        invariant forall k: nat | k < transfers :: !GoesThrough(part0, world, size, k)
      {
        transfers := transfers + 1;
        var done := TryOnce(world.attempts(transfers - 1), size);
        if done {
          assert GoesThrough(part0, world, size, transfers - 1);
          return Replaced, transfers;
        }
      }
      UnlinkQuiet(world.lastUnlinkOk);
      forall k: nat | k < 4 ensures FellShort(world.attempts(k), PartAfter(part0, world, k), size) {
        assert !GoesThrough(part0, world, size, k);
      }
      outcome := Failed;
    }
  }

  // ----- where a promoted file comes from

  /** From attempt `i` (or before the loop, for -1) to the transfer of attempt `k` nothing
      removes or rewrites the `.part` file. */
  ghost predicate Lingers(world: World, i: int, k: nat)
  {
    && (i < 0 ==> !world.firstUnlinkOk)
    && forall j: nat | i < j <= k :: !world.attempts(j).unlinkOk && world.attempts(j).effect.Untouched?
  }

  /** Attempt `i` wrote this content; for -1 the run found it. */
  ghost predicate Origin(part: File, world: World, i: int, content: Content)
  {
    if i < 0 then part == Present(content) else world.attempts(i).effect == Writes(content)
  }

  /** The `.part` file after an attempt, exactly: the latest write, or the file the run
      found, that every unlink since has failed to remove. */
  lemma {:induction false} PartComesFrom(part: File, world: World, k: nat, content: Content)
    ensures PartAfter(part, world, k) == Present(content) <==>
            exists i | -1 <= i <= k :: Origin(part, world, i, content) && Lingers(world, i, k)
  {
    hide Origin;
    var a := world.attempts(k);
    if k == 0 { OriginsAtStart(part, world, content); } else { PartComesFrom(part, world, k - 1, content); }
    if PartAfter(part, world, k) == Present(content) {
      if a.effect.Writes? {
        OriginOfWrite(part, world, k, content);
        assert Lingers(world, k, k);
      } else if k > 0 {
        var i :| -1 <= i <= k - 1 && Origin(part, world, i, content) && Lingers(world, i, k - 1);
        assert Lingers(world, i, k);
      }
    }
    if i :| -1 <= i <= k && Origin(part, world, i, content) && Lingers(world, i, k) {
      OriginOfWrite(part, world, k, content);
      if i < k && k > 0 { assert Lingers(world, i, k - 1); }
    }
  }

  lemma OriginOfWrite(part: File, world: World, k: nat, content: Content)
    ensures Origin(part, world, k, content) <==> world.attempts(k).effect == Writes(content)
  {
  }

  lemma OriginsAtStart(part: File, world: World, content: Content)
    ensures Origin(part, world, -1, content) <==> part == Present(content)
    ensures Lingers(world, -1, 0) <==>
            !world.firstUnlinkOk && !world.attempts(0).unlinkOk && world.attempts(0).effect.Untouched?
  {
    if !world.firstUnlinkOk && !world.attempts(0).unlinkOk && world.attempts(0).effect.Untouched? {
      assert forall j: nat | -1 < j <= 0 :: !world.attempts(j).unlinkOk && world.attempts(j).effect.Untouched?;
    }
  }

  /** The run, of at most MAX_TRIES attempts, makes attempt `k`, and promotes a file that
      attempt's transfer did not write. */
  ghost predicate PromotesStale(part: File, world: World, size: RemoteSize, k: nat)
  {
    && k < MAX_TRIES && (forall j: nat | j < k :: !GoesThrough(part, world, size, j))
    && GoesThrough(part, world, size, k)
    && !world.attempts(k).effect.Writes?
  }

  /** The unlinks of a run, given by which of them work. */
  ghost predicate Scheduled(world: World, first: bool, unlinks: nat -> bool)
  {
    world.firstUnlinkOk == first && forall j: nat :: world.attempts(j).unlinkOk == unlinks(j)
  }

  /** Some file could be a sound download. */
  predicate Satisfiable(size: RemoteSize)
  {
    size.Known? ==> size.bytes > 0
  }

  /** For any schedule of the unlinks: attempt `k` can promote a file it did not write
      exactly when the unlink before it fails and there is something to be left over,
      from an earlier attempt or, before the first, from an unlink that failed too. */
  lemma StalePromotionExactly(first: bool, unlinks: nat -> bool, size: RemoteSize, k: nat)
    ensures (exists part, world :: Scheduled(world, first, unlinks) && PromotesStale(part, world, size, k)) <==>
            k < MAX_TRIES && !unlinks(k) && (k > 0 || !first) && Satisfiable(size)
  {
    if part, world :| Scheduled(world, first, unlinks) && PromotesStale(part, world, size, k) {
      StaleNeedsFailedUnlink(part, world, size, k);
    }
    if k < MAX_TRIES && !unlinks(k) && (k > 0 || !first) && Satisfiable(size) {
      var part, world := StaleWorld(first, unlinks, size, k);
      assert Scheduled(world, first, unlinks) && PromotesStale(part, world, size, k);
    }
  }

  lemma StaleNeedsFailedUnlink(part: File, world: World, size: RemoteSize, k: nat)
    requires GoesThrough(part, world, size, k) && !world.attempts(k).effect.Writes?
    ensures !world.attempts(k).unlinkOk && (k > 0 || !world.firstUnlinkOk) && Satisfiable(size)
  {
  }

  /** A sound download: as many zero bytes as the remote size, or one. */
  function SomeContent(size: RemoteSize): (c: Content)
    requires Satisfiable(size)
    ensures Sound(Present(c), size)
  {
    seq(if size.Known? then size.bytes else 1, _ => 0)
  }

  /** The attempt before `k` writes a sound file and cannot rename it; attempt `k` then
      transfers nothing and renames that file. All others fail. */
  lemma StaleWorld(first: bool, unlinks: nat -> bool, size: RemoteSize, k: nat) returns (part: File, world: World)
    requires k < MAX_TRIES && !unlinks(k) && (k > 0 || !first) && Satisfiable(size)
    ensures Scheduled(world, first, unlinks) && PromotesStale(part, world, size, k)
  {
    var content := SomeContent(size);
    part := Present(content);
    var attempts := (j: nat) =>
      Attempt(unlinks(j), if j + 1 == k then Writes(content) else Untouched, true, true, j == k);
    world := World(true, first, attempts, true);
    assert forall j: nat | j < k :: !world.attempts(j).replaceOk;
    assert PartAfter(part, world, k) == Present(content) by {
      if k > 0 { assert world.attempts(k - 1).effect == Writes(content); }
    }
  }

  /** So with the unlink before it working, what an attempt promotes is its own download,
      and its fate depends neither on other attempts nor on what the run found. */
  lemma PromotedIsFresh(part: File, world: World, part': File, world': World, size: RemoteSize, k: nat)
    requires world.attempts(k).unlinkOk && world.attempts(k) == world'.attempts(k)
    ensures GoesThrough(part, world, size, k) ==>
              world.attempts(k).effect.Writes? &&
              PartAfter(part, world, k) == Present(world.attempts(k).effect.content)
    ensures GoesThrough(part, world, size, k) <==> GoesThrough(part', world', size, k)
  {
  }
}
