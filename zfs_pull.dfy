/**
 * zfs-pull.py: pull the newest snapshot of a remote dataset into a local
 * pool, incrementally from the newest snapshot both sides share.
 *
 * The shell calls are oracles: a listing is the text its command printed
 * (None when the command failed and `check_output` raised), the transfer
 * is the exit status of its shell pipeline, and the lock file is an
 * `os.open` result plus whether `flock` granted the lock.
 */
module ZfsPull {
  import opened Wrappers
  import opened Lines

  const SshCmd: string := "ssh -o BatchMode=yes"
  const ReceiveCmd: string := "zfs receive -x mountpoint -F -d "

  // ---------------------------------------------------------------------
  // Dataset names

  /**
   * `pool, ds = srcds.split('/', 1)`: None when the unpacking fails,
   * that is, when `srcds` is a bare pool name.
   */
  function SplitDataset(srcds: string): (r: Option<(string, string)>)
    ensures r.None? <==> '/' !in srcds
    ensures r.Some? ==> r.value.0 + "/" + r.value.1 == srcds && '/' !in r.value.0
  {
    var i := IndexOf(srcds, '/');
    if i == |srcds| then None
    else
      assert srcds[..i] + "/" + srcds[i + 1..] == srcds;
      Some((srcds[..i], srcds[i + 1..]))
  }

  /** The split is at the FIRST slash: the pool part has none, the rest may. */
  lemma SplitDatasetUnique(srcds: string, pool: string, rest: string)
    requires pool + "/" + rest == srcds && '/' !in pool
    ensures SplitDataset(srcds) == Some((pool, rest))
  {
    var i := IndexOf(srcds, '/');
    assert srcds[|pool|] == '/';
    assert forall j :: 0 <= j < |pool| ==> srcds[j] == pool[j];
    assert i == |pool|;
    assert srcds[..i] == pool;
    assert srcds[i + 1..] == rest;
  }

  /** The local dataset that mirrors the source's non-pool part (line 64). */
  function LocalDataset(dstds: string, ds: string): string
  {
    dstds + "/" + ds
  }

  // ---------------------------------------------------------------------
  // Listings

  function LocalListCommand(dataset: string): string
  {
    "zfs list -t snapshot -S creation -d 1 -H -o name " + dataset + " | sed -e \"s/.*@//\""
  }

  function RemoteListCommand(host: string, dataset: string): string
  {
    SshCmd + " " + host
    + " \"zfs list -t snapshot -S creation -d 1 -H -o name " + dataset
    + " | sed -e \\\"s/.*@//\\\"\""
  }

  /** Different datasets get different listing commands, locally and on one host. */
  lemma ListCommandsDetermineDataset(host: string, d1: string, d2: string)
    ensures LocalListCommand(d1) == LocalListCommand(d2) ==> d1 == d2
    ensures RemoteListCommand(host, d1) == RemoteListCommand(host, d2) ==> d1 == d2
  {
    if LocalListCommand(d1) == LocalListCommand(d2) {
      CancelFrame("zfs list -t snapshot -S creation -d 1 -H -o name ", d1, d2, " | sed -e \"s/.*@//\"");
    }
    if RemoteListCommand(host, d1) == RemoteListCommand(host, d2) {
      CancelFrame(SshCmd + " " + host + " \"zfs list -t snapshot -S creation -d 1 -H -o name ",
                  d1, d2, " | sed -e \\\"s/.*@//\\\"\"");
    }
  }

  /** The snapshot names of a listing: its output lines without the empty ones. */
  function ReadSnapshots(output: string): (r: seq<string>)
    ensures forall i :: 0 <= i < |r| ==> r[i] != "" && '\n' !in r[i]
    ensures forall x :: x in r <==> x in Split(output, '\n') && x != ""
  {
    var lines := Split(output, '\n');
    var r := NonEmpty(lines);
    assert forall i :: 0 <= i < |r| ==> r[i] in lines;
    r
  }

  /** One name per line, each line ended by a newline, reads back as exactly those names in order. */
  lemma ReadSnapshotsOfListing(names: seq<string>)
    requires forall i :: 0 <= i < |names| ==> names[i] != "" && '\n' !in names[i]
    ensures ReadSnapshots(Join(names + [""], '\n')) == names
  {
    var parts := names + [""];
    assert forall i :: 0 <= i < |parts| ==> '\n' !in parts[i] by {
      forall i | 0 <= i < |parts| ensures '\n' !in parts[i] {
        if i < |names| { assert parts[i] == names[i]; }
      }
    }
    SplitJoin(parts, '\n');
    NonEmptyAppend(names, [""]);
    NonEmptyKeepsNonEmpty(names);
  }

  // ---------------------------------------------------------------------
  // Planning

  /** The first remote snapshot, newest first, that also exists locally. */
  function FirstLocal(remote: seq<string>, local: set<string>): (r: Option<string>)
    ensures r.Some? ==> r.value in local && r.value in remote
  {
    if |remote| == 0 then None
    else if remote[0] in local then Some(remote[0])
    else FirstLocal(remote[1..], local)
  }

  /**
   * FirstLocal is the newest common snapshot: it is local, it sits at some
   * index of the remote list, and nothing before that index is local; and
   * it is None exactly when no remote snapshot is local.
   */
  lemma {:induction false} FirstLocalIsNewestCommon(remote: seq<string>, local: set<string>)
    ensures FirstLocal(remote, local).None? <==>
            forall i :: 0 <= i < |remote| ==> remote[i] !in local
    ensures FirstLocal(remote, local).Some? ==>
            FirstLocal(remote, local).value in local &&
            exists i :: 0 <= i < |remote| && remote[i] == FirstLocal(remote, local).value &&
                        forall j :: 0 <= j < i ==> remote[j] !in local
  {
    if |remote| > 0 && remote[0] !in local {
      var tail := remote[1..];
      FirstLocalIsNewestCommon(tail, local);
      assert forall i :: 1 <= i < |remote| ==> remote[i] == tail[i - 1];
      if FirstLocal(tail, local).Some? {
        var i :| 0 <= i < |tail| && tail[i] == FirstLocal(tail, local).value &&
                 forall j :: 0 <= j < i ==> tail[j] !in local;
        assert remote[i + 1] == FirstLocal(remote, local).value;
        assert forall j :: 0 <= j < i + 1 ==> remote[j] !in local by {
          forall j | 0 <= j < i + 1 ensures remote[j] !in local {
            if j > 0 { assert remote[j] == tail[j - 1]; }
          }
        }
      } else {
        assert forall i :: 0 <= i < |remote| ==> remote[i] !in local by {
          forall i | 0 <= i < |remote| ensures remote[i] !in local {
            if i > 0 { assert remote[i] == tail[i - 1]; }
          }
        }
      }
    }
  }

  /** The newest remote snapshot is already local exactly when it is the one FirstLocal picks. */
  lemma NewestIsLocalIff(remote: seq<string>, local: set<string>)
    requires |remote| > 0
    ensures FirstLocal(remote, local) == Some(remote[0]) <==> remote[0] in local
  {
    FirstLocalIsNewestCommon(remote, local);
  }

  /** Lines 66-73: scan the remote list newest first and stop at the first local name. */
  method SelectFromSnap(remote: seq<string>, local: set<string>) returns (fromsnap: Option<string>)
    ensures fromsnap == FirstLocal(remote, local)
  {
    fromsnap := None;
    var i := 0;
    while i < |remote|
      invariant 0 <= i <= |remote|
      invariant FirstLocal(remote, local) == FirstLocal(remote[i..], local)
    {
      assert remote[i..][1..] == remote[i + 1..];
      if remote[i] in local {
        fromsnap := Some(remote[i]);
        break;
      }
      i := i + 1;
    }
  }

  // ---------------------------------------------------------------------
  // Commands and messages of zfs_pull

  /** The send mode: `-R` without a common snapshot, `-I <fromsnap>` with one. */
  function SendMode(fromsnap: Option<string>): string
  {
    match fromsnap
    case None => "-R "
    case Some(f) => "-I " + f + " "
  }

  /**
   * Lines 34-39: a full recursive send without a common snapshot, an
   * incremental one with it, always of `srcds@tosnap`.
   */
  function SendCommand(srcds: string, fromsnap: Option<string>, tosnap: string): string
  {
    "zfs send " + SendMode(fromsnap) + (srcds + "@" + tosnap)
  }

  function SshHead(srchost: string): string
  {
    SshCmd + " " + srchost + " \""
  }

  function ReceiveTail(dstds: string): string
  {
    "\" | " + ReceiveCmd + dstds
  }

  /** The shell pipeline of line 41. */
  function PullCommand(srchost: string, srcds: string, dstds: string,
                       fromsnap: Option<string>, tosnap: string): string
  {
    SshHead(srchost) + SendCommand(srcds, fromsnap, tosnap) + ReceiveTail(dstds)
  }

  /** The snapshot range a log message names: `tosnap`, or `(fromsnap, tosnap]`. */
  function MessageRange(fromsnap: Option<string>, tosnap: string): string
  {
    match fromsnap
    case None => tosnap
    case Some(f) => "(" + f + ", " + tosnap + "]"
  }

  /** The log message of lines 35 and 38. */
  function PullMessage(srchost: string, srcds: string, dstds: string,
                       fromsnap: Option<string>, tosnap: string): string
  {
    "Pulling snapshot for " + srchost + "/" + srcds + ": " + MessageRange(fromsnap, tosnap) + (" to " + dstds)
  }

  /** Equal texts with the same frame around them have equal cores. */
  lemma CancelFrame(a: string, x: string, y: string, b: string)
    requires a + x + b == a + y + b
    ensures x == y
  {
    assert |x| == |y|;
    assert x == (a + x + b)[|a|..|a| + |x|];
    assert y == (a + y + b)[|a|..|a| + |y|];
  }

  /** Equal texts with the same start have equal rests. */
  lemma CancelPrefix(a: string, x: string, y: string)
    requires a + x == a + y
    ensures x == y
  {
    assert x == (a + x)[|a|..];
    assert y == (a + y)[|a|..];
  }

  /**
   * The send command starts `zfs send -R` exactly when there is no common
   * snapshot and `zfs send -I` exactly when there is one, and ends with
   * `srcds@tosnap`.
   */
  lemma SendCommandMode(srcds: string, fromsnap: Option<string>, tosnap: string)
    ensures var send := SendCommand(srcds, fromsnap, tosnap);
            && |send| > 11 + |srcds| + |tosnap|
            && send[..9] == "zfs send "
            && (send[9..11] == "-R" <==> fromsnap.None?)
            && (send[9..11] == "-I" <==> fromsnap.Some?)
            && send[|send| - |tosnap| - |srcds| - 1..] == srcds + "@" + tosnap
  {
    var send := SendCommand(srcds, fromsnap, tosnap);
    var mode := SendMode(fromsnap);
    SliceThree("zfs send ", mode, srcds + "@" + tosnap);
    assert send[9..9 + |mode|][..2] == send[9..11];
    match fromsnap
    case None =>
      assert mode[..2] == "-R";
      assert send[9..11][1] == 'R';
    case Some(f) =>
      assert mode[..2] == "-I";
      assert send[9..11][1] == 'I';
  }

  /**
   * The pipeline runs the send command, verbatim, inside the ssh call to
   * the source host and pipes it into the local receive of `dstds`.
   */
  lemma PullCommandCarriesSend(srchost: string, srcds: string, dstds: string,
                               fromsnap: Option<string>, tosnap: string)
    ensures var r := PullCommand(srchost, srcds, dstds, fromsnap, tosnap);
            var send := SendCommand(srcds, fromsnap, tosnap);
            var h := SshHead(srchost);
            && |r| == |h| + |send| + |ReceiveTail(dstds)|
            && r[..|h|] == h
            && r[|h|..|h| + |send|] == send
            && r[|h| + |send|..] == ReceiveTail(dstds)
  {
    SliceThree(SshHead(srchost), SendCommand(srcds, fromsnap, tosnap), ReceiveTail(dstds));
  }

  /** With everything else fixed, the command tells which snapshot is pulled. */
  lemma PullCommandDeterminesTosnap(srchost: string, srcds: string, dstds: string,
                                    fromsnap: Option<string>, t1: string, t2: string)
    requires PullCommand(srchost, srcds, dstds, fromsnap, t1) ==
             PullCommand(srchost, srcds, dstds, fromsnap, t2)
    ensures t1 == t2
  {
    CancelFrame(SshHead(srchost), SendCommand(srcds, fromsnap, t1),
                SendCommand(srcds, fromsnap, t2), ReceiveTail(dstds));
    CancelPrefix("zfs send " + SendMode(fromsnap), srcds + "@" + t1, srcds + "@" + t2);
    CancelPrefix(srcds + "@", t1, t2);
  }

  /** With everything else fixed, an incremental command tells which snapshot it starts from. */
  lemma PullCommandDeterminesFromsnap(srchost: string, srcds: string, dstds: string,
                                      f1: string, f2: string, tosnap: string)
    requires PullCommand(srchost, srcds, dstds, Some(f1), tosnap) ==
             PullCommand(srchost, srcds, dstds, Some(f2), tosnap)
    ensures f1 == f2
  {
    CancelFrame(SshHead(srchost), SendCommand(srcds, Some(f1), tosnap),
                SendCommand(srcds, Some(f2), tosnap), ReceiveTail(dstds));
    CancelFrame("zfs send ", SendMode(Some(f1)), SendMode(Some(f2)), srcds + "@" + tosnap);
    CancelFrame("-I ", f1, f2, " ");
  }

  /** A full pull and an incremental pull from the same host never run the same command. */
  lemma FullAndIncrementalDiffer(srchost: string, srcds: string, dstds: string, tosnap: string,
                                 srcds': string, dstds': string, fromsnap': string, tosnap': string)
    ensures PullCommand(srchost, srcds, dstds, None, tosnap) !=
            PullCommand(srchost, srcds', dstds', Some(fromsnap'), tosnap')
  {
    var h := SshHead(srchost);
    var full := SendCommand(srcds, None, tosnap);
    var incr := SendCommand(srcds', Some(fromsnap'), tosnap');
    SendCommandMode(srcds, None, tosnap);
    SendCommandMode(srcds', Some(fromsnap'), tosnap');
    PullCommandCarriesSend(srchost, srcds, dstds, None, tosnap);
    PullCommandCarriesSend(srchost, srcds', dstds', Some(fromsnap'), tosnap');
    assert full[9..11] != incr[9..11];
    assert PullCommand(srchost, srcds, dstds, None, tosnap)[|h| + 9..|h| + 11] == full[9..11];
    assert PullCommand(srchost, srcds', dstds', Some(fromsnap'), tosnap')[|h| + 9..|h| + 11] == incr[9..11];
  }

  /** With everything else fixed, the log message tells which snapshot is pulled. */
  lemma PullMessageDeterminesTosnap(srchost: string, srcds: string, dstds: string,
                                    fromsnap: Option<string>, t1: string, t2: string)
    requires PullMessage(srchost, srcds, dstds, fromsnap, t1) ==
             PullMessage(srchost, srcds, dstds, fromsnap, t2)
    ensures t1 == t2
  {
    var head := "Pulling snapshot for " + srchost + "/" + srcds + ": ";
    CancelFrame(head, MessageRange(fromsnap, t1), MessageRange(fromsnap, t2), " to " + dstds);
    match fromsnap
    case None =>
    case Some(f) => CancelFrame("(" + f + ", ", t1, t2, "]");
  }

  /** With everything else fixed, the log message of an incremental pull tells its starting snapshot. */
  lemma PullMessageDeterminesFromsnap(srchost: string, srcds: string, dstds: string,
                                      f1: string, f2: string, tosnap: string)
    requires PullMessage(srchost, srcds, dstds, Some(f1), tosnap) ==
             PullMessage(srchost, srcds, dstds, Some(f2), tosnap)
    ensures f1 == f2
  {
    var head := "Pulling snapshot for " + srchost + "/" + srcds + ": ";
    CancelFrame(head, MessageRange(Some(f1), tosnap), MessageRange(Some(f2), tosnap), " to " + dstds);
    var rest := ", " + tosnap + "]";
    assert MessageRange(Some(f1), tosnap) == "(" + f1 + rest;
    assert MessageRange(Some(f2), tosnap) == "(" + f2 + rest;
    CancelFrame("(", f1, f2, rest);
  }

  // ---------------------------------------------------------------------
  // One run of main (lines 55-78)

  datatype Outcome =
    | RootNotSupported                       // lines 59-61: exit status 1
    | ListingFailed(command: string)         // check_output raised
    | NoRemoteSnapshots                      // IndexError at line 67
    | UpToDate                               // line 76
    | Pulled(message: string, command: string)
    | PullFailed(message: string, command: string, status: int)

  /** The listing commands issued, in order, and how the run ended. */
  datatype Run = Run(listings: seq<string>, outcome: Outcome)

  function AsSet(names: seq<string>): set<string>
  {
    set x | x in names
  }

  /** Lines 66-78, once both listings are in: the plan and the transfer. */
  function Decide(srchost: string, srcds: string, dstds: string,
                  remote: seq<string>, local: set<string>, pullStatus: int): (r: Outcome)
    ensures r != RootNotSupported && !r.ListingFailed?
  {
    if |remote| == 0 then NoRemoteSnapshots
    else
      var tosnap := remote[0];
      var fromsnap := FirstLocal(remote, local);
      if fromsnap == Some(tosnap) then UpToDate
      else
        var message := PullMessage(srchost, srcds, dstds, fromsnap, tosnap);
        var command := PullCommand(srchost, srcds, dstds, fromsnap, tosnap);
        if pullStatus == 0 then Pulled(message, command)
        else PullFailed(message, command, pullStatus)
  }

  /** What main does, given the listing outputs and the transfer's exit status. */
  function Replication(srchost: string, srcds: string, dstds: string,
                       remoteOut: Option<string>, localOut: Option<string>,
                       pullStatus: int): Run
  {
    match SplitDataset(srcds)
    case None => Run([], RootNotSupported)
    case Some((pool, ds)) =>
      var remoteCmd := RemoteListCommand(srchost, srcds);
      var localCmd := LocalListCommand(LocalDataset(dstds, ds));
      if remoteOut.None? then Run([remoteCmd], ListingFailed(remoteCmd))
      else if localOut.None? then Run([remoteCmd, localCmd], ListingFailed(localCmd))
      else
        Run([remoteCmd, localCmd],
            Decide(srchost, srcds, dstds, ReadSnapshots(remoteOut.value),
                   AsSet(ReadSnapshots(localOut.value)), pullStatus))
  }

  /** main itself, with the scan of lines 66-73 as a loop. */
  method Replicate(srchost: string, srcds: string, dstds: string,
                   remoteOut: Option<string>, localOut: Option<string>,
                   pullStatus: int) returns (run: Run)
    ensures run == Replication(srchost, srcds, dstds, remoteOut, localOut, pullStatus)
  {
    var split := SplitDataset(srcds);
    if split.None? {
      return Run([], RootNotSupported);
    }
    var ds := split.value.1;
    var remoteCmd := RemoteListCommand(srchost, srcds);
    if remoteOut.None? {
      return Run([remoteCmd], ListingFailed(remoteCmd));
    }
    var remote := ReadSnapshots(remoteOut.value);
    var localCmd := LocalListCommand(LocalDataset(dstds, ds));
    if localOut.None? {
      return Run([remoteCmd, localCmd], ListingFailed(localCmd));
    }
    var localNames := ReadSnapshots(localOut.value);
    if |remote| == 0 {
      return Run([remoteCmd, localCmd], NoRemoteSnapshots);
    }
    var tosnap := remote[0];
    var local := AsSet(localNames);
    var fromsnap := SelectFromSnap(remote, local);
    if fromsnap == Some(tosnap) {
      run := Run([remoteCmd, localCmd], UpToDate);
    } else {
      var message := PullMessage(srchost, srcds, dstds, fromsnap, tosnap);
      var command := PullCommand(srchost, srcds, dstds, fromsnap, tosnap);
      if pullStatus == 0 {
        run := Run([remoteCmd, localCmd], Pulled(message, command));
      } else {
        run := Run([remoteCmd, localCmd], PullFailed(message, command, pullStatus));
      }
    }
  }

  /**
   * A bare pool name is rejected before any listing; otherwise the remote
   * listing asks for `srcds` on the source host and the local one for
   * `dstds/rest`, where rest is everything after the first slash.
   */
  lemma RootRejectedBeforeListing(srchost: string, srcds: string, dstds: string,
                                  remoteOut: Option<string>, localOut: Option<string>,
                                  pullStatus: int)
    ensures var run := Replication(srchost, srcds, dstds, remoteOut, localOut, pullStatus);
            && (run.outcome == RootNotSupported <==> '/' !in srcds)
            && ('/' !in srcds ==> run.listings == [])
            && ('/' in srcds ==>
                  1 <= |run.listings| <= 2 &&
                  run.listings[0] == RemoteListCommand(srchost, srcds) &&
                  (|run.listings| == 2 ==>
                     run.listings[1] ==
                       LocalListCommand(dstds + "/" + srcds[IndexOf(srcds, '/') + 1..])))
  {
    var run := Replication(srchost, srcds, dstds, remoteOut, localOut, pullStatus);
    match SplitDataset(srcds)
    case None =>
    case Some((pool, ds)) =>
      assert ds == srcds[IndexOf(srcds, '/') + 1..];
      var listings := run.listings;
      assert listings == [RemoteListCommand(srchost, srcds)] ||
             listings == [RemoteListCommand(srchost, srcds), LocalListCommand(LocalDataset(dstds, ds))];
  }

  /** An empty remote listing fails the run after both listings, with no transfer. */
  lemma EmptyRemoteNeverPulls(srchost: string, srcds: string, dstds: string,
                              remoteOut: string, localOut: Option<string>, pullStatus: int)
    requires '/' in srcds && localOut.Some?
    requires ReadSnapshots(remoteOut) == []
    ensures Replication(srchost, srcds, dstds, Some(remoteOut), localOut, pullStatus).outcome
            == NoRemoteSnapshots
  {
  }

  /**
   * Once both listings succeed and the remote one is not empty: no transfer
   * happens exactly when the newest remote snapshot is local; otherwise the
   * transfer pulls that newest snapshot, starting from the newest common
   * one, as a full send when there is none.
   */
  lemma PlanPullsNewestFromNewestCommon(srchost: string, srcds: string, dstds: string,
                                        remoteOut: string, localOut: string, pullStatus: int)
    requires '/' in srcds && ReadSnapshots(remoteOut) != []
    ensures var run := Replication(srchost, srcds, dstds, Some(remoteOut), Some(localOut), pullStatus);
            var remote := ReadSnapshots(remoteOut);
            var local := AsSet(ReadSnapshots(localOut));
            var fromsnap := FirstLocal(remote, local);
            && (run.outcome == UpToDate <==> remote[0] in local)
            && (remote[0] !in local ==>
                  (pullStatus == 0 ==> run.outcome.Pulled?) &&
                  (pullStatus != 0 ==> run.outcome.PullFailed? && run.outcome.status == pullStatus) &&
                  run.outcome.command == PullCommand(srchost, srcds, dstds, fromsnap, remote[0]) &&
                  (fromsnap.None? <==> forall i :: 0 <= i < |remote| ==> remote[i] !in local))
  {
    var remote := ReadSnapshots(remoteOut);
    var local := AsSet(ReadSnapshots(localOut));
    NewestIsLocalIff(remote, local);
    FirstLocalIsNewestCommon(remote, local);
  }

  /** Only which names the local listing holds matters, not their order or repetition. */
  lemma LocalOrderIrrelevant(srchost: string, srcds: string, dstds: string,
                             remoteOut: Option<string>, local1: string, local2: string,
                             pullStatus: int)
    requires forall x :: x in ReadSnapshots(local1) <==> x in ReadSnapshots(local2)
    ensures Replication(srchost, srcds, dstds, remoteOut, Some(local1), pullStatus) ==
            Replication(srchost, srcds, dstds, remoteOut, Some(local2), pullStatus)
  {
    assert AsSet(ReadSnapshots(local1)) == AsSet(ReadSnapshots(local2));
  }

  // ---------------------------------------------------------------------
  // Lock file (line 88)

  /** `s.replace('/', '--')`. */
  function ReplaceSlashes(s: string): (r: string)
    ensures '/' !in r
    ensures |r| >= |s|
  {
    if |s| == 0 then ""
    else if s[0] == '/' then "--" + ReplaceSlashes(s[1..])
    else [s[0]] + ReplaceSlashes(s[1..])
  }

  /** Turns every `--` back into `/`, left to right. */
  function RestoreSlashes(r: string): string
  {
    if |r| == 0 then ""
    else if |r| >= 2 && r[0] == '-' && r[1] == '-' then "/" + RestoreSlashes(r[2..])
    else [r[0]] + RestoreSlashes(r[1..])
  }

  /** For names without `-`, replacing the slashes loses nothing. */
  lemma {:induction false} RestoreReplace(s: string)
    requires '-' !in s
    ensures RestoreSlashes(ReplaceSlashes(s)) == s
  {
    if |s| > 0 {
      RestoreReplace(s[1..]);
      var t := ReplaceSlashes(s[1..]);
      if s[0] == '/' {
        assert ("--" + t)[2..] == t;
      } else {
        assert ([s[0]] + t)[1..] == t;
      }
      assert [s[0]] + s[1..] == s;
    }
  }

  const LockPrefix: string := "/var/run/zfs-pull-"
  const LockSuffix: string := ".lock"

  /** The lock file of a destination dataset. */
  function LockPath(dstds: string): (r: string)
    ensures |r| >= |LockPrefix| + |LockSuffix|
    ensures r[..|LockPrefix|] == LockPrefix && r[|r| - |LockSuffix|..] == LockSuffix
    ensures '/' !in r[|LockPrefix|..|r| - |LockSuffix|]
  {
    var r := LockPrefix + ReplaceSlashes(dstds) + LockSuffix;
    assert r[|LockPrefix|..|r| - |LockSuffix|] == ReplaceSlashes(dstds);
    r
  }

  /** Destinations whose names have no `-` get distinct lock files. */
  lemma LockPathInjective(a: string, b: string)
    requires '-' !in a && '-' !in b
    requires LockPath(a) == LockPath(b)
    ensures a == b
  {
    CancelFrame(LockPrefix, ReplaceSlashes(a), ReplaceSlashes(b), LockSuffix);
    RestoreReplace(a);
    RestoreReplace(b);
  }

  /** With a `-` allowed, two different destinations can share one lock file. */
  lemma LockPathCollision()
    ensures "tank/a" != "tank--a" && LockPath("tank/a") == LockPath("tank--a")
  {
    assert ReplaceSlashes("a") == "a";
    assert ReplaceSlashes("/a") == "--a";
    assert ReplaceSlashes("-a") == "-a";
    assert ReplaceSlashes("--a") == "--a";
    assert ReplaceSlashes("k/a") == "k--a";
    assert ReplaceSlashes("k--a") == "k--a";
    assert ReplaceSlashes("nk/a") == "nk--a";
    assert ReplaceSlashes("nk--a") == "nk--a";
    assert ReplaceSlashes("ank/a") == "ank--a";
    assert ReplaceSlashes("ank--a") == "ank--a";
    assert ReplaceSlashes("tank/a") == "tank--a";
    assert ReplaceSlashes("tank--a") == "tank--a";
  }

  // ---------------------------------------------------------------------
  // FileLock (lines 11-29)

  datatype AcquireResult = Acquired | OpenFailed | WouldBlock

  /** `if self.fd: close; self.fd = None`, as written: descriptor 0 is falsy and survives. */
  function ReleaseAsWritten(fd: Option<nat>): (r: Option<nat>)
    ensures r.Some? <==> fd == Some(0)
  {
    if fd.Some? && fd.value != 0 then None else fd
  }

  /** A lock opened on descriptor 0 is neither closed nor forgotten by the release as written. */
  lemma ReleaseAsWrittenKeepsDescriptorZero()
    ensures ReleaseAsWritten(Some(0)) == Some(0)
  {
  }

  class FileLock {
    const lockfile: string
    var fd: Option<nat>
    /** Whether the descriptor in `fd` holds the exclusive lock. */
    ghost var locked: bool

    ghost predicate Valid()
      reads this
    {
      locked ==> fd.Some?
    }

    constructor (lockfile: string)
      ensures Valid() && this.lockfile == lockfile && fd == None && !locked
    {
      this.lockfile := lockfile;
      fd := None;
      locked := false;
    }

    /**
     * `openFd` is what os.open returned (None when it raised); `granted`
     * whether flock(LOCK_EX | LOCK_NB) succeeded. The descriptor is kept
     * even when flock then fails.
     */
    method Acquire(openFd: Option<nat>, granted: bool) returns (r: AcquireResult)
      requires Valid()
      modifies this
      ensures Valid()
      ensures openFd.None? ==> r == OpenFailed && fd == old(fd) && locked == old(locked)
      ensures openFd.Some? ==> fd == openFd && locked == granted &&
                               r == (if granted then Acquired else WouldBlock)
    {
      if openFd.None? {
        return OpenFailed;
      }
      fd := openFd;
      locked := granted;
      r := if granted then Acquired else WouldBlock;
    }

    /** Closes the descriptor, if any; afterwards nothing is held or open, whatever came before. */
    method Release()
      requires Valid()
      modifies this
      ensures Valid() && fd == None && !locked
    {
      if fd.Some? {
        fd := None;
        locked := false;
      }
    }
  }

  // ---------------------------------------------------------------------
  // The script's entry point (lines 80-89)

  datatype CliResult =
    | UsageError
    | LockFailed(lockfile: string, reason: AcquireResult)
    | Finished(lockfile: string, run: Run)

  /** The process exit status of a run. */
  function ExitStatus(r: CliResult): (code: int)
    ensures code == 0 <==> r.Finished? && (r.run.outcome.UpToDate? || r.run.outcome.Pulled?)
    ensures code == 0 || code == 1
  {
    match r
    case Finished(_, Run(_, UpToDate)) => 0
    case Finished(_, Run(_, Pulled(_, _))) => 0
    case _ => 1
  }

  /**
   * The usage check, then main under the destination's lock: a lock that
   * cannot be taken ends the run before any listing, and a taken lock is
   * released after main whatever main's outcome.
   */
  method Cli(argv: seq<string>, openFd: Option<nat>, granted: bool,
             remoteOut: Option<string>, localOut: Option<string>, pullStatus: int)
    returns (r: CliResult, lock: FileLock?)
    ensures |argv| < 4 ==> r == UsageError && lock == null
    ensures r.Finished? ==> lock != null && lock.lockfile == r.lockfile && lock.fd == None && !lock.locked
    ensures |argv| >= 4 && !(openFd.Some? && granted) ==>
              r.LockFailed? && r.lockfile == LockPath(argv[3])
    ensures |argv| >= 4 && openFd.Some? && granted ==>
              r == Finished(LockPath(argv[3]),
                            Replication(argv[1], argv[2], argv[3], remoteOut, localOut, pullStatus))
  {
    if |argv| < 4 {
      return UsageError, null;
    }
    var path := LockPath(argv[3]);
    lock := new FileLock(path);
    var acquired := lock.Acquire(openFd, granted);
    if acquired != Acquired {
      return LockFailed(path, acquired), lock;
    }
    var run := Replicate(argv[1], argv[2], argv[3], remoteOut, localOut, pullStatus);
    lock.Release();
    r := Finished(path, run);
  }
}
