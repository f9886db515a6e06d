/**
 * The clean-up pass: every parsed torrent is classified against the ratio
 * limit and the allowed trackers, counted under one of four headings, and,
 * outside test mode, paused and removed when it is to be deleted.
 *
 * `Classify` is the decision for one torrent, `TallyOf` the four counters after
 * a list of torrents, `ToDelete` the torrents to delete in list order, and
 * `DeletionCommands` the console commands that deleting them issues. `Cleanup`
 * and `Run` are the loop and the whole program run, proved against them.
 */
module Policy {
  import opened Wrappers
  import opened Console
  import opened Report

  /** The only state in which a torrent is considered for deletion. */
  const SeedingState: string := "Seeding"

  /** A torrent is over the limit when it is seeding and its ratio reaches the limit (inclusive). */
  predicate OverLimit(t: Torrent, ratioLimit: real) {
    t.state == SeedingState && t.ratio >= ratioLimit
  }

  /** The four outcomes of the clean-up loop, one counter each. */
  datatype Disposition =
    | Deleted              // tracker not allowed, over the limit
    | SkippedRatio         // tracker not allowed, under the limit
    | SkippedTracker       // allowed tracker, under the limit
    | SkippedTrackerRatio  // allowed tracker, over the limit

  /**
   * What the loop does with one torrent. A torrent from an allowed tracker is
   * never deleted, only counted as over or under the limit; any other torrent
   * is deleted exactly when it is over the limit.
   */
  function Classify(t: Torrent, ratioLimit: real, allowedTrackers: seq<string>): (d: Disposition)
    ensures d == Deleted <==> t.tracker !in allowedTrackers && OverLimit(t, ratioLimit)
    ensures d == SkippedRatio <==> t.tracker !in allowedTrackers && !OverLimit(t, ratioLimit)
    ensures d == SkippedTrackerRatio <==> t.tracker in allowedTrackers && OverLimit(t, ratioLimit)
    ensures d == SkippedTracker <==> t.tracker in allowedTrackers && !OverLimit(t, ratioLimit)
  {
    if t.tracker in allowedTrackers then
      if t.state == SeedingState && t.ratio >= ratioLimit then SkippedTrackerRatio else SkippedTracker
    else if t.state == SeedingState && t.ratio >= ratioLimit then Deleted
    else SkippedRatio
  }

  /** A torrent exactly at the limit counts as over it. */
  lemma LimitIsInclusive(t: Torrent, allowedTrackers: seq<string>)
    requires t.state == SeedingState && t.tracker !in allowedTrackers
    ensures Classify(t, t.ratio, allowedTrackers) == Deleted
  {
  }

  /**
   * A stricter policy (a higher limit, more allowed trackers) deletes no
   * torrent that the laxer one keeps.
   */
  lemma StricterDeletesLess(t: Torrent, ratioLimit: real, ratioLimit': real, allowedTrackers: seq<string>, allowedTrackers': seq<string>)
    requires ratioLimit <= ratioLimit'
    requires forall tracker | tracker in allowedTrackers :: tracker in allowedTrackers'
    ensures Classify(t, ratioLimit', allowedTrackers') == Deleted ==> Classify(t, ratioLimit, allowedTrackers) == Deleted
  {
  }

  /** The counters printed at the end of a run. */
  datatype Tally = Tally(deleted: nat, skippedTracker: nat, skippedRatio: nat, skippedTrackerRatio: nat)
  {
    /** The counter kept for disposition `d`. */
    function Of(d: Disposition): nat {
      match d
      case Deleted => deleted
      case SkippedRatio => skippedRatio
      case SkippedTracker => skippedTracker
      case SkippedTrackerRatio => skippedTrackerRatio
    }

    function Total(): nat {
      deleted + skippedTracker + skippedRatio + skippedTrackerRatio
    }

    /** "Total skipped": every torrent that was not deleted. */
    function Skipped(): nat {
      skippedTracker + skippedRatio + skippedTrackerRatio
    }

    /** One more torrent with disposition `d`: its counter goes up by one and no other moves. */
    function Count(d: Disposition): (r: Tally)
      ensures r.Of(d) == Of(d) + 1
      ensures forall d' | d' != d :: r.Of(d') == Of(d')
    {
      match d
      case Deleted => this.(deleted := deleted + 1)
      case SkippedRatio => this.(skippedRatio := skippedRatio + 1)
      case SkippedTracker => this.(skippedTracker := skippedTracker + 1)
      case SkippedTrackerRatio => this.(skippedTrackerRatio := skippedTrackerRatio + 1)
    }
  }

  const NoTorrents: Tally := Tally(0, 0, 0, 0)

  /** The counters after classifying `torrents` in order. */
  function TallyOf(torrents: seq<Torrent>, ratioLimit: real, allowedTrackers: seq<string>): Tally {
    if torrents == [] then NoTorrents
    else
      var n := |torrents| - 1;
      TallyOf(torrents[..n], ratioLimit, allowedTrackers).Count(Classify(torrents[n], ratioLimit, allowedTrackers))
  }

  /** The torrents with disposition `d`, in list order. */
  function WithDisposition(torrents: seq<Torrent>, ratioLimit: real, allowedTrackers: seq<string>, d: Disposition): seq<Torrent> {
    if torrents == [] then []
    else
      var n := |torrents| - 1;
      WithDisposition(torrents[..n], ratioLimit, allowedTrackers, d)
        + (if Classify(torrents[n], ratioLimit, allowedTrackers) == d then [torrents[n]] else [])
  }

  /** The torrents the loop stops and removes (or, in test mode, would). */
  function ToDelete(torrents: seq<Torrent>, ratioLimit: real, allowedTrackers: seq<string>): seq<Torrent> {
    WithDisposition(torrents, ratioLimit, allowedTrackers, Deleted)
  }

  /** The console commands that deleting `torrents` issues: pause, then rm, for each in turn. */
  function DeletionCommands(torrents: seq<Torrent>): seq<string> {
    if torrents == [] then []
    else
      var t := torrents[|torrents| - 1];
      DeletionCommands(torrents[..|torrents| - 1]) + [PauseCommand(t.id), RemoveCommand(t.id)]
  }

  // ---------------------------------------------------------------------------
  // Counting

  /** Every torrent is counted exactly once: the four counters add up to the number of torrents. */
  lemma {:induction false} TallyTotal(torrents: seq<Torrent>, ratioLimit: real, allowedTrackers: seq<string>)
    ensures TallyOf(torrents, ratioLimit, allowedTrackers).Total() == |torrents|
  {
    if torrents != [] {
      TallyTotal(torrents[..|torrents| - 1], ratioLimit, allowedTrackers);
    }
  }

  /** Each counter is the number of torrents with its disposition. */
  lemma {:induction false} TallyCounts(torrents: seq<Torrent>, ratioLimit: real, allowedTrackers: seq<string>, d: Disposition)
    ensures TallyOf(torrents, ratioLimit, allowedTrackers).Of(d) == |WithDisposition(torrents, ratioLimit, allowedTrackers, d)|
  {
    if torrents != [] {
      TallyCounts(torrents[..|torrents| - 1], ratioLimit, allowedTrackers, d);
    }
  }

  /** A torrent is listed under `d` exactly when it is one of the torrents and is classified `d`. */
  lemma {:induction false} WithDispositionMember(torrents: seq<Torrent>, ratioLimit: real, allowedTrackers: seq<string>, d: Disposition, t: Torrent)
    ensures t in WithDisposition(torrents, ratioLimit, allowedTrackers, d)
      <==> t in torrents && Classify(t, ratioLimit, allowedTrackers) == d
  {
    if torrents != [] {
      var n := |torrents| - 1;
      WithDispositionMember(torrents[..n], ratioLimit, allowedTrackers, d, t);
      assert torrents == torrents[..n] + [torrents[n]];
    }
  }

  /** Selection keeps list order: the torrents of `a + b` are those of `a` followed by those of `b`. */
  lemma {:induction false} WithDispositionAppend(a: seq<Torrent>, b: seq<Torrent>, ratioLimit: real, allowedTrackers: seq<string>, d: Disposition)
    ensures WithDisposition(a + b, ratioLimit, allowedTrackers, d)
      == WithDisposition(a, ratioLimit, allowedTrackers, d) + WithDisposition(b, ratioLimit, allowedTrackers, d)
  {
    if b == [] {
      assert a + b == a;
    } else {
      var n := |b| - 1;
      assert (a + b)[..|a + b| - 1] == a + b[..n];
      assert (a + b)[|a + b| - 1] == b[n];
      WithDispositionAppend(a, b[..n], ratioLimit, allowedTrackers, d);
    }
  }

  /** Nothing from an allowed tracker, and nothing under the limit, is ever deleted. */
  lemma DeletedOnlyOverLimit(torrents: seq<Torrent>, ratioLimit: real, allowedTrackers: seq<string>, t: Torrent)
    requires t in ToDelete(torrents, ratioLimit, allowedTrackers)
    ensures t in torrents && t.tracker !in allowedTrackers && OverLimit(t, ratioLimit)
  {
    WithDispositionMember(torrents, ratioLimit, allowedTrackers, Deleted, t);
  }

  /** A stricter policy deletes a sub-list of what the laxer one deletes, and never more torrents. */
  lemma {:induction false} StricterDeletesFewer(torrents: seq<Torrent>, ratioLimit: real, ratioLimit': real, allowedTrackers: seq<string>, allowedTrackers': seq<string>)
    requires ratioLimit <= ratioLimit'
    requires forall tracker | tracker in allowedTrackers :: tracker in allowedTrackers'
    ensures |ToDelete(torrents, ratioLimit', allowedTrackers')| <= |ToDelete(torrents, ratioLimit, allowedTrackers)|
    ensures forall t | t in ToDelete(torrents, ratioLimit', allowedTrackers') :: t in ToDelete(torrents, ratioLimit, allowedTrackers)
  {
    if torrents != [] {
      var n := |torrents| - 1;
      StricterDeletesFewer(torrents[..n], ratioLimit, ratioLimit', allowedTrackers, allowedTrackers');
      StricterDeletesLess(torrents[n], ratioLimit, ratioLimit', allowedTrackers, allowedTrackers');
    }
  }

  /** The figures printed at the end: total, skipped and deleted agree with the list and the commands. */
  lemma Summary(torrents: seq<Torrent>, ratioLimit: real, allowedTrackers: seq<string>)
    ensures var tally := TallyOf(torrents, ratioLimit, allowedTrackers);
      tally.Total() == |torrents|
      && tally.Skipped() == |torrents| - tally.deleted
      && tally.deleted == |ToDelete(torrents, ratioLimit, allowedTrackers)|
      && |DeletionCommands(ToDelete(torrents, ratioLimit, allowedTrackers))| == 2 * tally.deleted
  {
    TallyTotal(torrents, ratioLimit, allowedTrackers);
    TallyCounts(torrents, ratioLimit, allowedTrackers, Deleted);
    DeletionCommandsShape(ToDelete(torrents, ratioLimit, allowedTrackers));
  }

  // ---------------------------------------------------------------------------
  // Commands

  /** Two commands per torrent, in list order: `pause <id>` at position 2k, `rm <id>` right after it. */
  lemma {:induction false} DeletionCommandsShape(torrents: seq<Torrent>)
    ensures |DeletionCommands(torrents)| == 2 * |torrents|
    ensures forall k | 0 <= k < |torrents| ::
      DeletionCommands(torrents)[2 * k] == PauseCommand(torrents[k].id)
      && DeletionCommands(torrents)[2 * k + 1] == RemoveCommand(torrents[k].id)
  {
    if torrents != [] {
      var n := |torrents| - 1;
      DeletionCommandsShape(torrents[..n]);
      forall k | 0 <= k < n
        ensures DeletionCommands(torrents)[2 * k] == PauseCommand(torrents[k].id)
      {
        assert torrents[..n][k] == torrents[k];
      }
    }
  }

  /** The commands for two lists one after the other are those of the joined list. */
  lemma {:induction false} DeletionCommandsAppend(a: seq<Torrent>, b: seq<Torrent>)
    ensures DeletionCommands(a + b) == DeletionCommands(a) + DeletionCommands(b)
  {
    if b == [] {
      assert a + b == a;
    } else {
      var n := |b| - 1;
      assert (a + b)[..|a + b| - 1] == a + b[..n];
      assert (a + b)[|a + b| - 1] == b[n];
      DeletionCommandsAppend(a, b[..n]);
    }
  }

  /**
   * The deletion log never fetches the report: every command is the pause or
   * the rm of one of the torrents.
   */
  lemma DeletionCommandsMutateOnly(torrents: seq<Torrent>, k: nat)
    requires k < |DeletionCommands(torrents)|
    ensures exists t | t in torrents ::
      DeletionCommands(torrents)[k] == PauseCommand(t.id) || DeletionCommands(torrents)[k] == RemoveCommand(t.id)
    ensures DeletionCommands(torrents)[k] != InfoCommand
  {
    DeletionCommandsShape(torrents);
    var t := torrents[k / 2];
    assert t in torrents;
    if k % 2 == 0 {
      assert DeletionCommands(torrents)[k] == PauseCommand(t.id);
      assert PauseCommand(t.id)[0] != InfoCommand[0];
    } else {
      assert DeletionCommands(torrents)[k] == RemoveCommand(t.id);
      assert RemoveCommand(t.id)[0] != InfoCommand[0];
    }
  }

  // ---------------------------------------------------------------------------
  // One torrent on its own

  /** One torrent on its own is counted once, under its disposition. */
  lemma SingleTally(t: Torrent, ratioLimit: real, allowedTrackers: seq<string>, d: Disposition)
    requires Classify(t, ratioLimit, allowedTrackers) == d
    ensures TallyOf([t], ratioLimit, allowedTrackers) == NoTorrents.Count(d)
  {
    assert [t][..0] == [];
  }

  /** One torrent on its own is deleted alone or not at all. */
  lemma SingleToDelete(t: Torrent, ratioLimit: real, allowedTrackers: seq<string>)
    ensures ToDelete([t], ratioLimit, allowedTrackers) == if Classify(t, ratioLimit, allowedTrackers) == Deleted then [t] else []
  {
    assert [t][..0] == [];
    assert WithDisposition([t][..0], ratioLimit, allowedTrackers, Deleted) == [];
  }

  /** Deleting one torrent on its own issues `pause <id>` then `rm <id>`, and nothing else. */
  lemma SingleCommands(t: Torrent, ratioLimit: real, allowedTrackers: seq<string>)
    ensures DeletionCommands(ToDelete([t], ratioLimit, allowedTrackers))
      == if Classify(t, ratioLimit, allowedTrackers) == Deleted then [PauseCommand(t.id), RemoveCommand(t.id)] else []
  {
    SingleToDelete(t, ratioLimit, allowedTrackers);
    assert [t][..0] == [];
  }

  /** A seeding torrent at or over the limit, tracker not allowed, is counted as deleted. */
  lemma SingleDeleted(t: Torrent, ratioLimit: real, allowedTrackers: seq<string>)
    requires OverLimit(t, ratioLimit) && t.tracker !in allowedTrackers
    ensures TallyOf([t], ratioLimit, allowedTrackers) == Tally(1, 0, 0, 0)
  {
    SingleTally(t, ratioLimit, allowedTrackers, Deleted);
  }

  /** The same torrent from an allowed tracker is counted as over the limit, not deleted. */
  lemma SingleAllowedOverLimit(t: Torrent, ratioLimit: real, allowedTrackers: seq<string>)
    requires OverLimit(t, ratioLimit) && t.tracker in allowedTrackers
    ensures TallyOf([t], ratioLimit, allowedTrackers) == Tally(0, 0, 0, 1)
  {
    SingleTally(t, ratioLimit, allowedTrackers, SkippedTrackerRatio);
  }

  /** A torrent that is not seeding is kept whatever its ratio: the state gate comes first. */
  lemma SingleNotSeeding(t: Torrent, ratioLimit: real, allowedTrackers: seq<string>)
    requires t.state != SeedingState && t.tracker !in allowedTrackers
    ensures TallyOf([t], ratioLimit, allowedTrackers) == Tally(0, 0, 1, 0)
  {
    SingleTally(t, ratioLimit, allowedTrackers, SkippedRatio);
  }

  /**
   * The sample report, limit 0.5, no allowed tracker: it reads as one torrent,
   * which is deleted with `pause 1` then `rm 1`.
   */
  lemma SampleReportDeleted(parseRatio: RatioParser)
    requires parseRatio("0.6") == Some(0.6)
    ensures var t := Torrent("X", "1", "Seeding", 0.6, "t1");
      Parse(RenderReport([t], ["0.6"]), parseRatio) == Ok([t])
      && DeletionCommands(ToDelete([t], 0.5, [])) == [PauseCommand("1"), RemoveCommand("1")]
  {
    ParseSampleReport(parseRatio);
    SingleCommands(Torrent("X", "1", "Seeding", 0.6, "t1"), 0.5, []);
  }

  // ---------------------------------------------------------------------------
  // The program

  /** What one more torrent adds to the counters, the deletions and their commands. */
  lemma CleanupStep(torrents: seq<Torrent>, ratioLimit: real, allowedTrackers: seq<string>, i: nat)
    requires i < |torrents|
    ensures var d := Classify(torrents[i], ratioLimit, allowedTrackers);
      TallyOf(torrents[..i + 1], ratioLimit, allowedTrackers) == TallyOf(torrents[..i], ratioLimit, allowedTrackers).Count(d)
      && DeletionCommands(ToDelete(torrents[..i + 1], ratioLimit, allowedTrackers))
         == DeletionCommands(ToDelete(torrents[..i], ratioLimit, allowedTrackers))
            + (if d == Deleted then [PauseCommand(torrents[i].id), RemoveCommand(torrents[i].id)] else [])
  {
    var before := ToDelete(torrents[..i], ratioLimit, allowedTrackers);
    assert torrents[..i + 1][..i] == torrents[..i];
    if Classify(torrents[i], ratioLimit, allowedTrackers) == Deleted {
      assert ToDelete(torrents[..i + 1], ratioLimit, allowedTrackers) == before + [torrents[i]];
      assert (before + [torrents[i]])[..|before|] == before;
    } else {
      assert ToDelete(torrents[..i + 1], ratioLimit, allowedTrackers) == before + [];
      assert before + [] == before;
    }
  }

  /**
   * The loop over the parsed torrents: counts each under its heading and,
   * unless `test` is set, stops and removes each torrent to delete, in order.
   */
  method Cleanup(deluge: Deluge, torrents: seq<Torrent>, ratioLimit: real, allowedTrackers: seq<string>, test: bool)
    returns (tally: Tally)
    modifies deluge
    ensures tally == TallyOf(torrents, ratioLimit, allowedTrackers)
    ensures deluge.issued == old(deluge.issued)
      + (if test then [] else DeletionCommands(ToDelete(torrents, ratioLimit, allowedTrackers)))
  {
    var deleted, skippedTracker, skippedRatio, skippedTrackerRatio := 0, 0, 0, 0;
    for i := 0 to |torrents|
      invariant Tally(deleted, skippedTracker, skippedRatio, skippedTrackerRatio) == TallyOf(torrents[..i], ratioLimit, allowedTrackers)
      invariant deluge.issued == old(deluge.issued)
        + (if test then [] else DeletionCommands(ToDelete(torrents[..i], ratioLimit, allowedTrackers)))
    {
      var torrent := torrents[i];
      CleanupStep(torrents, ratioLimit, allowedTrackers, i);
      if torrent.tracker in allowedTrackers {
        if torrent.state == SeedingState && torrent.ratio >= ratioLimit {
          skippedTrackerRatio := skippedTrackerRatio + 1;
        } else {
          skippedTracker := skippedTracker + 1;
        }
        continue;
      }
      if torrent.state == SeedingState && torrent.ratio >= ratioLimit {
        deleted := deleted + 1;
        if !test {
          ghost var done := DeletionCommands(ToDelete(torrents[..i], ratioLimit, allowedTrackers));
          deluge.StopAndRemove(torrent);
          assert old(deluge.issued) + done + [PauseCommand(torrent.id), RemoveCommand(torrent.id)]
            == old(deluge.issued) + (done + [PauseCommand(torrent.id), RemoveCommand(torrent.id)]);
        }
      } else {
        skippedRatio := skippedRatio + 1;
      }
    }
    assert torrents[..|torrents|] == torrents;
    tally := Tally(deleted, skippedTracker, skippedRatio, skippedTrackerRatio);
  }

  /**
   * One run of the program once its settings are known: fetch the report,
   * parse it, and clean up. A share ratio that does not convert ends the run
   * with an error right after the report was fetched.
   */
  method Run(deluge: Deluge, parseRatio: RatioParser, ratioLimit: real, allowedTrackers: seq<string>, test: bool)
    returns (r: Result<Tally, ParseError>)
    modifies deluge
    ensures var parsed := Parse(deluge.Reply(InfoCommand), parseRatio);
      match parsed
      case Err(e) =>
        r == Err(e) && deluge.issued == old(deluge.issued) + [InfoCommand]
      case Ok(torrents) =>
        r == Ok(TallyOf(torrents, ratioLimit, allowedTrackers))
        && deluge.issued == old(deluge.issued) + [InfoCommand]
          + (if test then [] else DeletionCommands(ToDelete(torrents, ratioLimit, allowedTrackers)))
  {
    var torrentInfo := deluge.GetAllTorrents();
    var parsed := ParseTorrentInfo(torrentInfo, parseRatio);
    match parsed {
      case Err(e) =>
        r := Err(e);
      case Ok(torrents) =>
        var tally := Cleanup(deluge, torrents, ratioLimit, allowedTrackers, test);
        r := Ok(tally);
    }
  }
}
