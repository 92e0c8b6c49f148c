/**
 * Pushing a firmware bundle to a device that may refuse writes, corrupt them,
 * stop answering or come back after a reconnect, and rebooting it into the
 * updater only when everything has been verified.
 */
module Installer {
  import opened Streams
  import opened Bundles

  const MD5_ATTEMPTS := 5
  const MD5_VERIFY_MAX_BYTES := 2 * 1024 * 1024
  const RESYNC_ATTEMPTS := 2
  const UPDATE_OK := 0
  const UPDATE_UNSPECIFIED_ERROR := 10
  const UPDATE_ROOT := "/ext/update"

  datatype Answer<+T> = Value(v: T) | Absent | Threw

  datatype Status = Match | Mismatch | Unreadable

  /** What the device says about a stored file. */
  datatype Measure = Digest(hex: string) | Length(bytes: nat)

  /** What was asked of the device and what it answered, in order; of a repeated question the last answer. */
  datatype Entry =
    | Targeted(raw: string)
    | MadeDir(path: string)
    | Wrote(path: string, data: Bytes, accepted: bool)
    | Checked(path: string, data: Bytes, measured: Answer<Measure>)
    | Resynced(ok: bool)
    | Updated(path: string, answer: Answer<int>)
    | Rebooted

  // ----- the device

  /**
   * The contracts of this class are all that is assumed of the device: a path
   * names a place, several paths possibly the same one; only a write changes
   * what is stored at its place, in whatever way; an answer that says a file
   * matches is true. The bodies are one such device.
   */
  class Device {
    const md5: Bytes -> string
    const place: string -> string
    var card: map<string, Bytes>
    ghost var log: seq<Entry>

    constructor (md5: Bytes -> string, place: string -> string)
      ensures this.md5 == md5 && this.place == place && log == []
    {
      this.md5, this.place := md5, place;
      card, log := map[], [];
    }

    method GetHardwareTarget() returns (raw: string)
      modifies this`log
      ensures log == old(log) + [Targeted(raw)]
    {
      raw := *;
      log := log + [Targeted(raw)];
    }

    method StorageMkdir(path: string)
      modifies this`log
      ensures log == old(log) + [MadeDir(path)]
    {
      log := log + [MadeDir(path)];
    }

    /** Whatever the answer, anything may end up at the path's place, and nothing changes elsewhere. */
    method StorageWrite(path: string, data: Bytes) returns (accepted: bool)
      modifies this
      ensures card - {place(path)} == old(card) - {place(path)}
      ensures log == old(log) + [Wrote(path, data, accepted)]
    {
      var landed: Bytes := *;
      accepted := *;
      if accepted {
        card := card[place(path) := landed];
      }
      log := log + [Wrote(path, data, accepted)];
    }

    /** A digest may be missing or garbage, but it equals that of `data` only if the stored file has it. */
    method StorageMd5sum(path: string, ghost data: Bytes) returns (a: Answer<string>)
      ensures a == Value(md5(data)) ==> place(path) in card && md5(card[place(path)]) == md5(data)
    {
      var awake: bool := *;
      a := if awake && place(path) in card then Value(md5(card[place(path)])) else Absent;
    }

    method StorageStat(path: string, ghost size: nat) returns (a: Answer<nat>)
      ensures a == Value(size) ==> place(path) in card && |card[place(path)]| == size
    {
      var awake: bool := *;
      a := if awake && place(path) in card then Value(|card[place(path)]|) else Absent;
    }

    /** A reconnect; false if it raises. */
    method Resync() returns (ok: bool)
      modifies this`log
      ensures log == old(log) + [Resynced(ok)]
    {
      ok := *;
      log := log + [Resynced(ok)];
    }

    method SystemUpdate(path: string) returns (a: Answer<int>)
      modifies this`log
      ensures log == old(log) + [Updated(path, a)]
    {
      a := *;
      log := log + [Updated(path, a)];
    }

    method SystemRebootUpdate()
      modifies this`log
      ensures log == old(log) + [Rebooted]
    {
      log := log + [Rebooted];
    }

    ghost method Note(path: string, data: Bytes, answer: Answer<Measure>)
      modifies this`log
      ensures log == old(log) + [Checked(path, data, answer)]
    {
      log := log + [Checked(path, data, answer)];
    }
  }

  // ----- verification of one file

  /** The file is on the card, as far as the chosen check can tell: by digest, or by size above 2 MiB. */
  ghost predicate Landed(md5: Bytes -> string, card: map<string, Bytes>, place: string, data: Bytes)
  {
    && place in card
    && if |data| > 0x20_0000 then |card[place]| == |data| else md5(card[place]) == md5(data)
  }

  /** What a good copy of `data` measures: its digest up to 2 MiB, its length above. */
  function Expected(md5: Bytes -> string, data: Bytes): (m: Measure)
  {
    if |data| > MD5_VERIFY_MAX_BYTES then Length(|data|) else Digest(md5(data))
  }

  /** The verdict that an answer calls for. */
  ghost predicate Says<T(!new)>(answer: Answer<T>, expected: T, s: Status)
  {
    && (s == Match <==> answer == Value(expected))
    && (s == Mismatch <==> answer.Value? && answer.v != expected)
    && (s == Unreadable <==> !answer.Value?)
  }

  method CheckSize(d: Device, path: string, expected: nat) returns (s: Status, answer: Answer<nat>)
    ensures Says(answer, expected, s)
    ensures s == Match ==> d.place(path) in d.card && |d.card[d.place(path)]| == expected
  {
    answer := d.StorageStat(path, expected);
    s := match answer case Value(n) => (if n == expected then Match else Mismatch) case _ => Unreadable;
  }

  /** Asks up to five times while there is no digest; the first digest decides. */
  method CheckMd5(d: Device, path: string, ghost data: Bytes, expected: string)
    returns (s: Status, answers: seq<Answer<string>>)
    requires expected == d.md5(data)
    ensures 1 <= |answers| <= 5 && forall i :: 0 <= i < |answers| - 1 ==> answers[i] == Absent
    ensures var last := answers[|answers| - 1];
            Says(last, expected, s) && (last == Absent ==> |answers| == 5)
    ensures s == Match ==> d.place(path) in d.card && d.md5(d.card[d.place(path)]) == expected
  {
    answers := [];
    while true
      invariant |answers| < MD5_ATTEMPTS && forall i :: 0 <= i < |answers| ==> answers[i] == Absent
      decreases MD5_ATTEMPTS - |answers|
    {
      var a := d.StorageMd5sum(path, data);
      answers := answers + [a];
      if a == Value(expected) {
        return Match, answers;
      }
      if !a.Absent? {
        return if a.Threw? then Unreadable else Mismatch, answers;
      }
      if |answers| == MD5_ATTEMPTS {
        return Unreadable, answers;
      }
    }
  }

  /** The check chosen by size; no answer and an exception count as unreadable. */
  method VerifyWritten(d: Device, path: string, data: Bytes) returns (s: Status, answer: Answer<Measure>)
    ensures Says(answer, Expected(d.md5, data), s)
    ensures answer.Value? ==> (answer.v.Length? <==> |data| > 0x20_0000)
    ensures s == Match ==> Landed(d.md5, d.card, d.place(path), data)
  {
    if |data| > MD5_VERIFY_MAX_BYTES {
      var size;
      s, size := CheckSize(d, path, |data|);
      answer := match size case Value(n) => Value(Length(n)) case Absent => Absent case Threw => Threw;
    } else {
      var answers;
      s, answers := CheckMd5(d, path, data, d.md5(data));
      var last := answers[|answers| - 1];
      answer := match last case Value(hex) => Value(Digest(hex)) case Absent => Absent case Threw => Threw;
    }
  }

  // ----- pushing one file

  /**
   * One pass of the retry loop: the answer to the write, if one was made, the
   * verdict, if one was reached, and the device's last answer that led to it.
   */
  datatype Round = Round(write: Option<bool>, check: Option<Status>, answer: Answer<Measure>)

  /** Every verdict is the one that the device's answer calls for. */
  ghost predicate RoundsSay(md5: Bytes -> string, data: Bytes, rounds: seq<Round>)
  {
    forall i :: 0 <= i < |rounds| && rounds[i].check.Some? ==>
      Says(rounds[i].answer, Expected(md5, data), rounds[i].check.value)
  }

  /** The last pass ended with the device's word that the file is as expected. */
  predicate Matched(md5: Bytes -> string, data: Bytes, rounds: seq<Round>)
  {
    && rounds != []
    && rounds[|rounds| - 1].check.Some? && rounds[|rounds| - 1].answer == Value(Expected(md5, data))
  }

  datatype PushResult = Pushed | Mismatched | Rejected | Wedged | Aborted

  /** The data counts as written when round `i` starts: the round before left it unreadable. */
  predicate Carried(rounds: seq<Round>, i: nat)
    requires i <= |rounds|
  {
    i > 0 && rounds[i - 1].check == Some(Unreadable)
  }

  /** A round writes unless the data counts as written, and checks if it does afterwards. */
  predicate RoundOk(rounds: seq<Round>, i: nat)
    requires i < |rounds|
  {
    && (rounds[i].write.None? <==> Carried(rounds, i))
    && (rounds[i].check.Some? <==> Carried(rounds, i) || rounds[i].write == Some(true))
  }

  ghost predicate RoundsOk(rounds: seq<Round>)
  {
    && |rounds| <= 3
    && (forall i :: 0 <= i < |rounds| ==> RoundOk(rounds, i))
    && (forall i :: 0 <= i < |rounds| - 1 ==> rounds[i].check != Some(Match))
  }

  /** The last verdict that was reached. */
  function LastCheck(rounds: seq<Round>): (r: Option<Status>)
  {
    if rounds == [] then None
    else if rounds[|rounds| - 1].check.Some? then rounds[|rounds| - 1].check
    else LastCheck(rounds[..|rounds| - 1])
  }

  ghost predicate EverWritten(rounds: seq<Round>)
  {
    exists i :: 0 <= i < |rounds| && rounds[i].write == Some(true)
  }

  /** The result that the rounds call for. */
  ghost predicate Concludes(rounds: seq<Round>, canResync: bool, r: PushResult)
  {
    && rounds != []
    && RoundsOk(rounds)
    && (!canResync ==> |rounds| == 1)
    && (r.Pushed? <==> rounds[|rounds| - 1].check == Some(Match))
    && (r.Aborted? ==> canResync && |rounds| <= 2)
    && (!r.Pushed? && !r.Aborted? ==>
          && (canResync ==> |rounds| == 3)
          && (r.Mismatched? <==> LastCheck(rounds) == Some(Mismatch))
          && (r.Rejected? <==> !EverWritten(rounds)))
  }

  /** There is a verdict only on data whose write was once accepted. */
  lemma {:induction false} CheckedMeansWritten(rounds: seq<Round>, i: nat)
    requires i < |rounds| && rounds[i].check.Some? && forall k :: 0 <= k < |rounds| ==> RoundOk(rounds, k)
    ensures EverWritten(rounds)
  {
    assert RoundOk(rounds, i);
    if Carried(rounds, i) {
      CheckedMeansWritten(rounds, i - 1);
    }
  }

  lemma {:induction false} LastCheckIndex(rounds: seq<Round>) returns (i: nat)
    requires LastCheck(rounds).Some?
    ensures i < |rounds| && rounds[i].check == LastCheck(rounds)
  {
    i := |rounds| - 1;
    if rounds[i].check.None? {
      i := LastCheckIndex(rounds[..i]);
    }
  }

  /** The verdict after the last round is the one the rounds call for. */
  lemma VerdictConcludes(rounds: seq<Round>, canResync: bool)
    requires rounds != [] && RoundsOk(rounds) && rounds[|rounds| - 1].check != Some(Match)
    requires |rounds| == if canResync then RESYNC_ATTEMPTS + 1 else 1
    ensures var last := LastCheck(rounds);
            Concludes(rounds, canResync, Verdict(if last.Some? then last.value else Unreadable, EverWritten(rounds)))
  {
    if LastCheck(rounds).Some? {
      var i := LastCheckIndex(rounds);
      CheckedMeansWritten(rounds, i);
    }
  }

  function RoundLog(path: string, data: Bytes, r: Round): (e: seq<Entry>)
  {
    (if r.write.Some? then [Wrote(path, data, r.write.value)] else [])
    + (if r.check.Some? then [Checked(path, data, r.answer)] else [])
  }

  /** A push that is given up ends with a reconnect that failed. */
  function Interrupted(r: PushResult): (e: seq<Entry>) { if r.Aborted? then [Resynced(false)] else [] }

  /** The rounds as the device saw them, with a reconnect between two of them. */
  function RoundsLog(path: string, data: Bytes, rounds: seq<Round>): (e: seq<Entry>)
  {
    if rounds == [] then []
    else
      var n := |rounds| - 1;
      RoundsLog(path, data, rounds[..n]) + (if n > 0 then [Resynced(true)] else []) + RoundLog(path, data, rounds[n])
  }

  lemma LastCheckSnoc(rounds: seq<Round>, r: Round)
    ensures LastCheck(rounds + [r]) == if r.check.Some? then r.check else LastCheck(rounds)
  {
    assert (rounds + [r])[..|rounds|] == rounds;
  }

  /** Adding a legal round to legal rounds. */
  lemma RoundsOkSnoc(rounds: seq<Round>, r: Round)
    requires RoundsOk(rounds) && |rounds| <= RESYNC_ATTEMPTS
    requires rounds != [] ==> rounds[|rounds| - 1].check != Some(Match)
    requires r.write.None? <==> Carried(rounds, |rounds|)
    requires r.check.Some? <==> Carried(rounds, |rounds|) || r.write == Some(true)
    ensures RoundsOk(rounds + [r])
    ensures EverWritten(rounds + [r]) <==> EverWritten(rounds) || r.write == Some(true)
  {
    var all := rounds + [r];
    forall i | 0 <= i < |all|
      ensures RoundOk(all, i)
    {
      if i < |rounds| {
        assert RoundOk(rounds, i);
      }
    }
    if EverWritten(rounds) {
      var i :| 0 <= i < |rounds| && rounds[i].write == Some(true);
      assert all[i].write == Some(true);
    }
    if r.write == Some(true) {
      assert all[|rounds|].write == Some(true);
    }
  }

  /** The log when the next round starts. */
  ghost function BeforeRound(log: seq<Entry>, path: string, data: Bytes, rounds: seq<Round>): (e: seq<Entry>)
  {
    log + RoundsLog(path, data, rounds) + (if rounds != [] then [Resynced(true)] else [])
  }

  lemma NextRound(log: seq<Entry>, path: string, data: Bytes, rounds: seq<Round>, r: Round)
    ensures BeforeRound(log, path, data, rounds) + RoundLog(path, data, r) == log + RoundsLog(path, data, rounds + [r])
  {
    var gap := if rounds != [] then [Resynced(true)] else [];
    assert (rounds + [r])[..|rounds|] == rounds;
    Assoc(log, RoundsLog(path, data, rounds), gap);
    Assoc(log, RoundsLog(path, data, rounds) + gap, RoundLog(path, data, r));
  }

  /** The local variables of the retry loop say what the rounds so far say. */
  ghost predicate Retrying(rounds: seq<Round>, written: bool, everWritten: bool, status: Status)
  {
    && RoundsOk(rounds)
    && (rounds != [] ==> rounds[|rounds| - 1].check != Some(Match))
    && written == Carried(rounds, |rounds|)
    && everWritten == EverWritten(rounds)
    && status == if LastCheck(rounds).Some? then LastCheck(rounds).value else Unreadable
  }

  lemma RetryGoesOn(rounds: seq<Round>, written: bool, everWritten: bool, status: Status, r: Round)
    requires Retrying(rounds, written, everWritten, status) && |rounds| <= RESYNC_ATTEMPTS
    requires r.write.None? <==> written
    requires r.check.Some? <==> written || r.write == Some(true)
    ensures RoundsOk(rounds + [r])
    ensures r.check != Some(Match) ==>
              Retrying(rounds + [r], r.check == Some(Unreadable), everWritten || r.write == Some(true),
                       if r.check.Some? then r.check.value else status)
  {
    RoundsOkSnoc(rounds, r);
    LastCheckSnoc(rounds, r);
  }

  /** One pass: write if needed, then verify if there is something to verify. */
  method PushRound(d: Device, path: string, data: Bytes, carried: bool) returns (round: Round)
    modifies d
    ensures round.write.None? <==> carried
    ensures round.check.Some? <==> carried || round.write == Some(true)
    ensures d.card - {d.place(path)} == old(d.card) - {d.place(path)}
    ensures round.check.Some? ==> Says(round.answer, Expected(d.md5, data), round.check.value)
    ensures round.check == Some(Match) ==> Landed(d.md5, d.card, d.place(path), data)
    ensures d.log == old(d.log) + RoundLog(path, data, round)
  {
    var written := carried;
    round := Round(None, None, Absent);
    if !written {
      written := d.StorageWrite(path, data);
      round := round.(write := Some(written));
    }
    if written {
      var s, answer := VerifyWritten(d, path, data);
      d.Note(path, data, answer);
      round := round.(check := Some(s), answer := answer);
    }
  }

  /**
   * The retry loop: up to three rounds with a reconnect in between. A success
   * means that the file has landed; no other file is touched.
   */
  method PushFile(d: Device, path: string, data: Bytes, canResync: bool) returns (r: PushResult, rounds: seq<Round>)
    modifies d
    ensures Concludes(rounds, canResync, r) && RoundsSay(d.md5, data, rounds)
    ensures d.card - {d.place(path)} == old(d.card) - {d.place(path)}
    ensures r.Pushed? ==> Landed(d.md5, d.card, d.place(path), data)
    ensures d.log == old(d.log) + RoundsLog(path, data, rounds) + Interrupted(r)
  {
    rounds := [];
    var written, everWritten, status := false, false, Unreadable;
    while true
      invariant |rounds| <= RESYNC_ATTEMPTS && (rounds != [] ==> canResync)
      invariant Retrying(rounds, written, everWritten, status) && RoundsSay(d.md5, data, rounds)
      invariant d.card - {d.place(path)} == old(d.card) - {d.place(path)}
      invariant d.log == BeforeRound(old(d.log), path, data, rounds)
      decreases RESYNC_ATTEMPTS - |rounds|
    {
      var round := PushRound(d, path, data, written);
      RetryGoesOn(rounds, written, everWritten, status, round);
      RoundsSaySnoc(d.md5, data, rounds, round);
      NextRound(old(d.log), path, data, rounds, round);
      rounds := rounds + [round];
      if round.check == Some(Match) {
        return Pushed, rounds;
      }
      everWritten := everWritten || round.write == Some(true);
      written := round.check == Some(Unreadable);
      status := if round.check.Some? then round.check.value else status;
      if !canResync || |rounds| == RESYNC_ATTEMPTS + 1 {
        VerdictConcludes(rounds, canResync);
        return Verdict(status, everWritten), rounds;
      }
      var ok := d.Resync();
      if !ok {
        return Aborted, rounds;
      }
    }
  }

  lemma RoundsSaySnoc(md5: Bytes -> string, data: Bytes, rounds: seq<Round>, r: Round)
    requires RoundsSay(md5, data, rounds)
    requires r.check.Some? ==> Says(r.answer, Expected(md5, data), r.check.value)
    ensures RoundsSay(md5, data, rounds + [r])
  {
  }

  /** A push succeeds exactly if its last pass ended with the expected answer. */
  lemma PushedIffMatched(md5: Bytes -> string, data: Bytes, rounds: seq<Round>, canResync: bool, r: PushResult)
    requires Concludes(rounds, canResync, r) && RoundsSay(md5, data, rounds)
    ensures r.Pushed? <==> Matched(md5, data, rounds)
  {
    var last := rounds[|rounds| - 1];
    if last.check.Some? {
      assert Says(last.answer, Expected(md5, data), last.check.value);
    }
  }

  /** A device that takes the write and answers as expected is believed at once: the push ends there, successfully. */
  lemma GoodAnswerEnds(md5: Bytes -> string, data: Bytes, rounds: seq<Round>, canResync: bool, r: PushResult, i: nat)
    requires Concludes(rounds, canResync, r) && RoundsSay(md5, data, rounds)
    requires i < |rounds| && rounds[i].check.Some? && rounds[i].answer == Value(Expected(md5, data))
    ensures r.Pushed? && i == |rounds| - 1
  {
    assert rounds[i].check == Some(Match);
  }

  function Verdict(status: Status, everWritten: bool): (r: PushResult)
  {
    if status == Mismatch then Mismatched else if !everWritten then Rejected else Wedged
  }

  function Writes(log: seq<Entry>): (n: nat)
  {
    if log == [] then 0 else Writes(log[..|log| - 1]) + if log[|log| - 1].Wrote? then 1 else 0
  }

  function Resyncs(log: seq<Entry>): (n: nat)
  {
    if log == [] then 0 else Resyncs(log[..|log| - 1]) + if log[|log| - 1].Resynced? then 1 else 0
  }

  lemma {:induction false} CountsSplit(a: seq<Entry>, b: seq<Entry>)
    ensures Writes(a + b) == Writes(a) + Writes(b) && Resyncs(a + b) == Resyncs(a) + Resyncs(b)
  {
    if b == [] {
      assert a + b == a;
    } else {
      assert (a + b)[..|a + b| - 1] == a + b[..|b| - 1];
      CountsSplit(a, b[..|b| - 1]);
    }
  }

  lemma CountsOfRound(path: string, data: Bytes, r: Round)
    ensures Writes(RoundLog(path, data, r)) == if r.write.Some? then 1 else 0
    ensures Resyncs(RoundLog(path, data, r)) == 0
  {
    var w := if r.write.Some? then [Wrote(path, data, r.write.value)] else [];
    var c := if r.check.Some? then [Checked(path, data, r.answer)] else [];
    CountsSplit(w, c);
    assert w != [] ==> w[..0] == [];
    assert c != [] ==> c[..0] == [];
  }

  lemma {:induction false} CountsOfRounds(path: string, data: Bytes, rounds: seq<Round>)
    ensures Writes(RoundsLog(path, data, rounds)) <= |rounds|
    ensures Resyncs(RoundsLog(path, data, rounds)) == if rounds == [] then 0 else |rounds| - 1
  {
    if rounds != [] {
      var n := |rounds| - 1;
      var early, late := RoundsLog(path, data, rounds[..n]), RoundLog(path, data, rounds[n]);
      var gap := if n > 0 then [Resynced(true)] else [];
      CountsOfRounds(path, data, rounds[..n]);
      CountsOfRound(path, data, rounds[n]);
      CountsSplit(early + gap, late);
      CountsSplit(early, gap);
      assert gap != [] ==> gap[..0] == [];
    }
  }

  /** A push makes at most three writes and two reconnects; a rewrite follows a refused write or a mismatch only. */
  lemma PushIsBounded(path: string, data: Bytes, rounds: seq<Round>, canResync: bool, r: PushResult)
    requires Concludes(rounds, canResync, r)
    ensures var log := RoundsLog(path, data, rounds) + Interrupted(r);
            Writes(log) <= 3 && Resyncs(log) <= 2
    ensures forall i :: 0 < i < |rounds| && rounds[i].write.Some? ==>
              rounds[i - 1].write == Some(false) || rounds[i - 1].check == Some(Mismatch)
  {
    var tail := Interrupted(r);
    CountsOfRounds(path, data, rounds);
    CountsSplit(RoundsLog(path, data, rounds), tail);
    assert tail != [] ==> tail[..0] == [];
    forall i | 0 < i < |rounds| && rounds[i].write.Some?
      ensures rounds[i - 1].write == Some(false) || rounds[i - 1].check == Some(Mismatch)
    {
      var before := rounds[i - 1];
      assert RoundOk(rounds, i) && RoundOk(rounds, i - 1);
      assert before.check != Some(Match) && before.check != Some(Unreadable);
      if before.check.None? {
        assert before.write.Some? && !before.write.value;
      } else {
        assert before.check.value == Mismatch;
      }
    }
  }

  // ----- the log

  /** Nothing from position `n` on is a reboot. */
  ghost predicate NoReboot(log: seq<Entry>, n: nat)
  {
    forall i :: n <= i < |log| ==> log[i] != Rebooted
  }

  // ----- the update trigger

  datatype TriggerResult = Triggered | Refused | LinkDropped | TriggerAborted

  /** The result that the device's answers call for. */
  ghost predicate TriggerConcludes(answers: seq<Answer<int>>, canResync: bool, r: TriggerResult)
  {
    && 1 <= |answers| <= 3
    && (forall i :: 0 <= i < |answers| - 1 ==> answers[i] == Value(UPDATE_UNSPECIFIED_ERROR))
    && var last := answers[|answers| - 1];
    && (r.Triggered? <==> last == Value(UPDATE_OK))
    && (r.LinkDropped? <==> last == Absent)
    && (r.Refused? <==> last.Value? && last.v != UPDATE_OK && (last.v != UPDATE_UNSPECIFIED_ERROR || |answers| == 3))
    && (r.TriggerAborted? && last.Value? ==> canResync)
  }

  /** The updates as the device saw them, with a reconnect between two of them if there can be one. */
  function TriggerLog(manifest: string, answers: seq<Answer<int>>, canResync: bool): (e: seq<Entry>)
  {
    if answers == [] then []
    else
      var n := |answers| - 1;
      TriggerLog(manifest, answers[..n], canResync)
      + (if n > 0 && canResync then [Resynced(true)] else []) + [Updated(manifest, answers[n])]
  }

  /** The log when the next update is asked for. */
  ghost function BeforeUpdate(log: seq<Entry>, manifest: string, answers: seq<Answer<int>>, canResync: bool)
    : (e: seq<Entry>)
  {
    log + TriggerLog(manifest, answers, canResync) + (if answers != [] && canResync then [Resynced(true)] else [])
  }

  lemma NextUpdate(log: seq<Entry>, manifest: string, answers: seq<Answer<int>>, canResync: bool, a: Answer<int>)
    ensures BeforeUpdate(log, manifest, answers, canResync) + [Updated(manifest, a)]
         == log + TriggerLog(manifest, answers + [a], canResync)
  {
    var gap := if answers != [] && canResync then [Resynced(true)] else [];
    assert (answers + [a])[..|answers|] == answers;
    Assoc(log, TriggerLog(manifest, answers, canResync), gap);
    Assoc(log, TriggerLog(manifest, answers, canResync) + gap, [Updated(manifest, a)]);
  }

  /** So far the device has only reported an unspecified error. */
  ghost predicate Unsettled(answers: seq<Answer<int>>)
  {
    forall i :: 0 <= i < |answers| ==> answers[i] == Value(UPDATE_UNSPECIFIED_ERROR)
  }

  lemma AnswerConcludes(answers: seq<Answer<int>>, a: Answer<int>, canResync: bool, r: TriggerResult)
    requires Unsettled(answers) && |answers| <= RESYNC_ATTEMPTS
    requires match r
             case Triggered => a == Value(UPDATE_OK)
             case LinkDropped => a == Absent
             case Refused =>
               && a.Value? && a.v != UPDATE_OK
               && (a.v != UPDATE_UNSPECIFIED_ERROR || |answers| == RESYNC_ATTEMPTS)
             case TriggerAborted =>
               a == Threw || (a == Value(UPDATE_UNSPECIFIED_ERROR) && |answers| < RESYNC_ATTEMPTS && canResync)
    ensures TriggerConcludes(answers + [a], canResync, r)
  {
    var all := answers + [a];
    assert all[|all| - 1] == a;
  }

  lemma {:induction false} TriggerLogNoReboot(manifest: string, answers: seq<Answer<int>>, canResync: bool)
    ensures NoReboot(TriggerLog(manifest, answers, canResync), 0)
  {
    if answers != [] {
      TriggerLogNoReboot(manifest, answers[..|answers| - 1], canResync);
    }
  }

  /** Only an unspecified error is tried again, up to three updates in all. */
  method TriggerUpdate(d: Device, manifest: string, canResync: bool)
    returns (r: TriggerResult, answers: seq<Answer<int>>)
    modifies d`log
    ensures TriggerConcludes(answers, canResync, r)
    ensures d.log == old(d.log) + TriggerLog(manifest, answers, canResync)
                   + if r.TriggerAborted? && answers[|answers| - 1].Value? then [Resynced(false)] else []
  {
    answers := [];
    while true
      invariant |answers| <= RESYNC_ATTEMPTS && Unsettled(answers)
      invariant d.log == BeforeUpdate(old(d.log), manifest, answers, canResync)
      decreases RESYNC_ATTEMPTS - |answers|
    {
      var a := d.SystemUpdate(manifest);
      NextUpdate(old(d.log), manifest, answers, canResync, a);
      ghost var before := answers;
      answers := answers + [a];
      if a == Value(UPDATE_UNSPECIFIED_ERROR) && |answers| <= RESYNC_ATTEMPTS {
        if canResync {
          var ok := d.Resync();
          if !ok {
            AnswerConcludes(before, a, canResync, TriggerAborted);
            return TriggerAborted, answers;
          }
        }
      } else {
        r := Settle(a);
        AnswerConcludes(before, a, canResync, r);
        return;
      }
    }
  }

  /** What an answer that is not tried again means. */
  function Settle(a: Answer<int>): (r: TriggerResult)
  {
    match a
    case Absent => LinkDropped
    case Threw => TriggerAborted
    case Value(code) => if code == UPDATE_OK then Triggered else Refused
  }

  // ----- the files of a bundle

  function Dest(pkgDir: string, rel: string): (r: string) { pkgDir + "/" + rel }

  /** The place on the card of each file of a bundle. */
  function Places(place: string -> string, pkgDir: string, files: seq<(string, Bytes)>): (r: seq<string>)
    ensures |r| == |files|
    ensures forall i :: 0 <= i < |r| ==> r[i] == place(Dest(pkgDir, files[i].0))
  {
    seq(|files|, i requires 0 <= i < |files| => place(Dest(pkgDir, files[i].0)))
  }

  /** No later entry of the list is the same place. */
  ghost predicate IsLast(places: seq<string>, i: nat)
  {
    i < |places| && forall j :: i < j < |places| ==> places[j] != places[i]
  }

  /** The places that the files of a bundle go to. */
  ghost function Dests(places: seq<string>): (r: set<string>)
  {
    set p | p in places
  }

  lemma UnchangedElsewhere(card: map<string, Bytes>, card': map<string, Bytes>, dest: string, dests: set<string>)
    requires card' - {dest} == card - {dest} && dest in dests
    ensures card' - dests == card - dests
  {
    assert (card' - {dest}) - dests == card' - dests;
    assert (card - {dest}) - dests == card - dests;
  }

  /** For every place, the last of the first `n` files that go there has landed. */
  ghost predicate AllLanded(md5: Bytes -> string, card: map<string, Bytes>, places: seq<string>,
                            files: seq<(string, Bytes)>, n: nat)
    requires n <= |places| == |files|
  {
    forall i :: 0 <= i < n && IsLast(places[..n], i) ==> Landed(md5, card, places[i], files[i].1)
  }

  lemma LandedElsewhere(md5: Bytes -> string, card: map<string, Bytes>, card': map<string, Bytes>,
                        dest: string, place: string, data: Bytes)
    requires card' - {dest} == card - {dest} && place != dest && Landed(md5, card, place, data)
    ensures Landed(md5, card', place, data)
  {
    assert place in card - {dest} && (card - {dest})[place] == card[place];
    assert place in card' - {dest} && (card' - {dest})[place] == card'[place];
  }

  /** Pushing one more file keeps the earlier ones that it does not replace. */
  lemma AllLandedSnoc(md5: Bytes -> string, card: map<string, Bytes>, card': map<string, Bytes>,
                      places: seq<string>, files: seq<(string, Bytes)>, n: nat)
    requires n < |places| == |files| && AllLanded(md5, card, places, files, n)
    requires card' - {places[n]} == card - {places[n]} && Landed(md5, card', places[n], files[n].1)
    ensures AllLanded(md5, card', places, files, n + 1)
  {
    var all := places[..n + 1];
    forall i | 0 <= i < n + 1 && IsLast(all, i)
      ensures Landed(md5, card', places[i], files[i].1)
    {
      if i < n {
        assert all[n] != all[i];
        assert IsLast(places[..n], i) by {
          assert forall j :: i < j < n ==> places[..n][j] == all[j];
        }
        LandedElsewhere(md5, card, card', places[n], places[i], files[i].1);
      }
    }
  }

  // ----- the installation

  datatype InstallResult =
    | Installed
    | NoTarget
    | WrongTarget
    | NotPushed(why: PushResult)
    | NotTriggered(reason: TriggerResult)

  predicate IsSpace(c: char) { c == ' ' || '\t' <= c <= '\r' }

  function StripLeft(s: string): (r: string)
  {
    if s != [] && IsSpace(s[0]) then StripLeft(s[1..]) else s
  }

  function StripRight(s: string): (r: string)
  {
    if s != [] && IsSpace(s[|s| - 1]) then StripRight(s[..|s| - 1]) else s
  }

  function Strip(s: string): (r: string) { StripRight(StripLeft(s)) }

  /** The part of a path before its last slash, or all of it if there is none. */
  function Parent(path: string): (r: string)
  {
    if '/' !in path then path
    else if path[|path| - 1] == '/' then path[..|path| - 1]
    else Parent(path[..|path| - 1])
  }

  ghost predicate AllSpace(s: string) { forall i :: 0 <= i < |s| ==> IsSpace(s[i]) }

  lemma {:induction false} StripLeftPadding(a: string, s: string)
    requires AllSpace(a) && (s != [] ==> !IsSpace(s[0]))
    ensures StripLeft(a + s) == s
  {
    if a == [] {
      assert a + s == s;
    } else {
      assert (a + s)[1..] == a[1..] + s;
      StripLeftPadding(a[1..], s);
    }
  }

  lemma {:induction false} StripRightPadding(s: string, b: string)
    requires AllSpace(b) && (s != [] ==> !IsSpace(s[|s| - 1]))
    ensures StripRight(s + b) == s
  {
    if b == [] {
      assert s + b == s;
    } else {
      assert (s + b)[..|s + b| - 1] == s + b[..|b| - 1];
      StripRightPadding(s, b[..|b| - 1]);
    }
  }

  /** Stripping takes off exactly the white space at both ends. */
  lemma StripPadding(a: string, s: string, b: string)
    requires AllSpace(a) && AllSpace(b) && s != [] && !IsSpace(s[0]) && !IsSpace(s[|s| - 1])
    ensures Strip(a + s + b) == s
  {
    Assoc(a, s, b);
    StripLeftPadding(a, s + b);
    StripRightPadding(s, b);
  }

  lemma StripBlank(a: string)
    requires AllSpace(a)
    ensures Strip(a) == ""
  {
    assert a + [] == a;
    StripLeftPadding(a, []);
  }

  /** The parent directory of a file in a directory. */
  lemma {:induction false} ParentOfFile(dir: string, name: string)
    requires '/' !in name
    ensures Parent(dir + "/" + name) == dir && Parent(name) == name
  {
    assert (dir + "/" + name)[|dir|] == '/';
    if name == [] {
      assert dir + "/" + name == dir + "/";
    } else {
      assert (dir + "/" + name)[..|dir + "/" + name| - 1] == dir + "/" + name[..|name| - 1];
      ParentOfFile(dir, name[..|name| - 1]);
    }
  }

  lemma RoundsDoNotReboot(path: string, data: Bytes, rounds: seq<Round>)
    ensures NoReboot(RoundsLog(path, data, rounds), 0)
  {
    if rounds != [] {
      RoundsDoNotReboot(path, data, rounds[..|rounds| - 1]);
    }
  }

  /** The directory made for a file, unless it is the package directory itself. */
  function DirLog(pkgDir: string, rel: string): (e: seq<Entry>)
  {
    var parent := Parent(Dest(pkgDir, rel));
    if parent == pkgDir then [] else [MadeDir(parent)]
  }

  /** One file of the bundle: its directory, then its content. */
  method PushEntry(d: Device, pkgDir: string, rel: string, data: Bytes, canResync: bool)
    returns (r: PushResult, rounds: seq<Round>)
    modifies d
    ensures d.log == old(d.log) + DirLog(pkgDir, rel) + RoundsLog(Dest(pkgDir, rel), data, rounds) + Interrupted(r)
    ensures Concludes(rounds, canResync, r) && (r.Pushed? <==> Matched(d.md5, data, rounds))
    ensures var p := d.place(Dest(pkgDir, rel));
            d.card - {p} == old(d.card) - {p} && (r.Pushed? ==> Landed(d.md5, d.card, p, data))
  {
    var dest := Dest(pkgDir, rel);
    if Parent(dest) != pkgDir {
      d.StorageMkdir(Parent(dest));
    }
    assert d.log == old(d.log) + DirLog(pkgDir, rel);
    r, rounds := PushFile(d, dest, data, canResync);
    PushedIffMatched(d.md5, data, rounds, canResync, r);
  }

  /** What the device sees of the pushes, file after file. */
  function PushLog(pkgDir: string, files: seq<(string, Bytes)>, pushes: seq<seq<Round>>): (e: seq<Entry>)
    requires |pushes| <= |files|
  {
    if pushes == [] then []
    else
      var n := |pushes| - 1;
      PushLog(pkgDir, files, pushes[..n])
      + (DirLog(pkgDir, files[n].0) + RoundsLog(Dest(pkgDir, files[n].0), files[n].1, pushes[n]))
  }

  /** One more push in the log. */
  lemma NextPush(log: seq<Entry>, pkgDir: string, files: seq<(string, Bytes)>, pushes: seq<seq<Round>>,
                 rounds: seq<Round>, tail: seq<Entry>)
    requires |pushes| < |files|
    ensures var f := files[|pushes|];
            log + PushLog(pkgDir, files, pushes)
            + DirLog(pkgDir, f.0) + RoundsLog(Dest(pkgDir, f.0), f.1, rounds) + tail
            == log + PushLog(pkgDir, files, pushes + [rounds]) + tail
  {
    var f := files[|pushes|];
    assert (pushes + [rounds])[..|pushes|] == pushes;
    var dir, log' := DirLog(pkgDir, f.0), RoundsLog(Dest(pkgDir, f.0), f.1, rounds);
    Assoc(log, PushLog(pkgDir, files, pushes), dir + log');
    Assoc(log + PushLog(pkgDir, files, pushes), dir, log');
  }

  lemma {:induction false} PushLogNoReboot(pkgDir: string, files: seq<(string, Bytes)>, pushes: seq<seq<Round>>)
    requires |pushes| <= |files|
    ensures NoReboot(PushLog(pkgDir, files, pushes), 0)
  {
    if pushes != [] {
      var n := |pushes| - 1;
      PushLogNoReboot(pkgDir, files, pushes[..n]);
      RoundsDoNotReboot(Dest(pkgDir, files[n].0), files[n].1, pushes[n]);
    }
  }

  /** Every push ended with the device's word that the file is as expected. */
  ghost predicate AllMatched(md5: Bytes -> string, files: seq<(string, Bytes)>, pushes: seq<seq<Round>>)
    requires |pushes| <= |files|
  {
    forall i :: 0 <= i < |pushes| ==> Matched(md5, files[i].1, pushes[i])
  }

  /** The result that the pushes call for: all files matched, or the first one that did not says why. */
  ghost predicate PushesConclude(md5: Bytes -> string, files: seq<(string, Bytes)>, pushes: seq<seq<Round>>,
                                 canResync: bool, r: PushResult)
  {
    && |pushes| <= |files|
    && if r.Pushed? then |pushes| == |files| && AllMatched(md5, files, pushes)
       else
         && pushes != [] && AllMatched(md5, files, pushes[..|pushes| - 1])
         && !Matched(md5, files[|pushes| - 1].1, pushes[|pushes| - 1])
         && Concludes(pushes[|pushes| - 1], canResync, r)
  }

  lemma AllMatchedSnoc(md5: Bytes -> string, files: seq<(string, Bytes)>, pushes: seq<seq<Round>>, rounds: seq<Round>)
    requires |pushes| < |files| && AllMatched(md5, files, pushes) && Matched(md5, files[|pushes|].1, rounds)
    ensures AllMatched(md5, files, pushes + [rounds])
  {
  }

  lemma PushFails(md5: Bytes -> string, files: seq<(string, Bytes)>, pushes: seq<seq<Round>>, rounds: seq<Round>,
                  canResync: bool, r: PushResult)
    requires |pushes| < |files| && AllMatched(md5, files, pushes) && !Matched(md5, files[|pushes|].1, rounds)
    requires !r.Pushed? && Concludes(rounds, canResync, r)
    ensures PushesConclude(md5, files, pushes + [rounds], canResync, r)
  {
    assert (pushes + [rounds])[..|pushes|] == pushes;
  }

  /** Pushes all files in order; on success the last entry for every place has landed. */
  method PushAll(d: Device, pkgDir: string, files: seq<(string, Bytes)>, canResync: bool)
    returns (r: PushResult, pushes: seq<seq<Round>>)
    modifies d
    ensures PushesConclude(d.md5, files, pushes, canResync, r)
    ensures d.log == old(d.log) + PushLog(pkgDir, files, pushes) + Interrupted(r)
    ensures var places := Places(d.place, pkgDir, files);
            && d.card - Dests(places) == old(d.card) - Dests(places)
            && (r.Pushed? ==> AllLanded(d.md5, d.card, places, files, |files|))
  {
    ghost var places := Places(d.place, pkgDir, files);
    pushes := [];
    for i := 0 to |files|
      invariant |pushes| == i && AllMatched(d.md5, files, pushes)
      invariant d.log == old(d.log) + PushLog(pkgDir, files, pushes)
      invariant d.card - Dests(places) == old(d.card) - Dests(places)
      invariant AllLanded(d.md5, d.card, places, files, i)
    {
      ghost var card := d.card;
      var rounds;
      r, rounds := PushEntry(d, pkgDir, files[i].0, files[i].1, canResync);
      NextPush(old(d.log), pkgDir, files, pushes, rounds, Interrupted(r));
      UnchangedElsewhere(card, d.card, places[i], Dests(places));
      if !r.Pushed? {
        PushFails(d.md5, files, pushes, rounds, canResync, r);
        return r, pushes + [rounds];
      }
      AllMatchedSnoc(d.md5, files, pushes, rounds);
      AllLandedSnoc(d.md5, card, d.card, places, files, i);
      pushes := pushes + [rounds];
    }
    return Pushed, pushes;
  }

  predicate TargetOk(raw: string, target: string) { Strip(raw) != "" && "f" + Strip(raw) == target }

  /**
   * The result that the device's answers call for: installed exactly if the
   * target is the bundle's, every file was confirmed and the update accepted;
   * otherwise the first of these that failed says why.
   */
  ghost predicate InstallConcludes(md5: Bytes -> string, bundle: Bundle, raw: string, pushes: seq<seq<Round>>,
                                   answers: seq<Answer<int>>, canResync: bool, r: InstallResult)
  {
    match r
    case NoTarget => Strip(raw) == "" && pushes == [] && answers == []
    case WrongTarget => Strip(raw) != "" && "f" + Strip(raw) != bundle.target && pushes == [] && answers == []
    case NotPushed(why) =>
      && TargetOk(raw, bundle.target) && answers == []
      && !why.Pushed? && PushesConclude(md5, bundle.files, pushes, canResync, why)
    case NotTriggered(reason) =>
      && TargetOk(raw, bundle.target) && PushesConclude(md5, bundle.files, pushes, canResync, Pushed)
      && !reason.Triggered? && TriggerConcludes(answers, canResync, reason)
    case Installed =>
      && TargetOk(raw, bundle.target) && PushesConclude(md5, bundle.files, pushes, canResync, Pushed)
      && TriggerConcludes(answers, canResync, Triggered)
  }

  /** In one sentence: when an installation succeeds, in terms of what the device said. */
  lemma InstalledIff(md5: Bytes -> string, bundle: Bundle, raw: string, pushes: seq<seq<Round>>,
                     answers: seq<Answer<int>>, canResync: bool, r: InstallResult)
    requires InstallConcludes(md5, bundle, raw, pushes, answers, canResync, r)
    ensures |pushes| <= |bundle.files|
    ensures r.Installed? <==>
              && TargetOk(raw, bundle.target)
              && |pushes| == |bundle.files| && AllMatched(md5, bundle.files, pushes)
              && answers != [] && answers[|answers| - 1] == Value(UPDATE_OK)
  {
  }

  /** The log when all files have been tried. */
  ghost function AfterPushes(log: seq<Entry>, bundle: Bundle, pkgDir: string, pushes: seq<seq<Round>>, why: PushResult)
    : (e: seq<Entry>)
    requires |pushes| <= |bundle.files|
  {
    log + [MadeDir(UPDATE_ROOT)] + [MadeDir(pkgDir)] + PushLog(pkgDir, bundle.files, pushes) + Interrupted(why)
  }

  /** The log when the update has been triggered, or not. */
  ghost function AfterTrigger(log: seq<Entry>, manifest: string, answers: seq<Answer<int>>, canResync: bool,
                              reason: TriggerResult): (e: seq<Entry>)
  {
    log + TriggerLog(manifest, answers, canResync)
    + if reason.TriggerAborted? && answers != [] && answers[|answers| - 1].Value? then [Resynced(false)] else []
  }

  /** What an installation adds to the log, as far as it gets. */
  ghost function InstallLog(log: seq<Entry>, bundle: Bundle, raw: string, pkgDir: string, pushes: seq<seq<Round>>,
                            answers: seq<Answer<int>>, canResync: bool, r: InstallResult): (e: seq<Entry>)
    requires |pushes| <= |bundle.files|
  {
    var start := log + [Targeted(raw)];
    var manifest := Dest(pkgDir, bundle.manifestName);
    match r
    case NoTarget => start
    case WrongTarget => start
    case NotPushed(why) => AfterPushes(start, bundle, pkgDir, pushes, why)
    case NotTriggered(reason) =>
      AfterTrigger(AfterPushes(start, bundle, pkgDir, pushes, Pushed), manifest, answers, canResync, reason)
    case Installed =>
      AfterTrigger(AfterPushes(start, bundle, pkgDir, pushes, Pushed), manifest, answers, canResync, Triggered)
      + [Rebooted]
  }

  /** The part of an installation behind the target check. */
  method Deliver(d: Device, bundle: Bundle, pkgDir: string, canResync: bool)
    returns (pushed: PushResult, pushes: seq<seq<Round>>, triggered: TriggerResult, answers: seq<Answer<int>>)
    modifies d
    ensures PushesConclude(d.md5, bundle.files, pushes, canResync, pushed)
    ensures if pushed.Pushed? then TriggerConcludes(answers, canResync, triggered) else answers == []
    ensures var pushLog := AfterPushes(old(d.log), bundle, pkgDir, pushes, pushed);
            d.log == if !pushed.Pushed? then pushLog
                     else AfterTrigger(pushLog, Dest(pkgDir, bundle.manifestName), answers, canResync, triggered)
    ensures var places := Places(d.place, pkgDir, bundle.files);
            && d.card - Dests(places) == old(d.card) - Dests(places)
            && (pushed.Pushed? ==> AllLanded(d.md5, d.card, places, bundle.files, |bundle.files|))
  {
    answers, triggered := [], TriggerAborted;
    d.StorageMkdir(UPDATE_ROOT);
    d.StorageMkdir(pkgDir);
    pushed, pushes := PushAll(d, pkgDir, bundle.files, canResync);
    if pushed.Pushed? {
      triggered, answers := TriggerUpdate(d, Dest(pkgDir, bundle.manifestName), canResync);
    }
  }

  /**
   * Everything an installation asks of the device, and the result, follow from
   * the device's answers. On success, for every place the bundle's last entry
   * is on the card with the right digest or, above 2 MiB, the right size.
   * However it ends, nothing has changed on the card except where the bundle's
   * files go.
   */
  method InstallBundle(d: Device, bundle: Bundle, pkgName: string, canResync: bool)
    returns (r: InstallResult, raw: string, pushes: seq<seq<Round>>, answers: seq<Answer<int>>)
    modifies d
    ensures InstallConcludes(d.md5, bundle, raw, pushes, answers, canResync, r)
    ensures |pushes| <= |bundle.files|
    ensures d.log == InstallLog(old(d.log), bundle, raw, Dest(UPDATE_ROOT, pkgName), pushes, answers, canResync, r)
    ensures var places := Places(d.place, Dest(UPDATE_ROOT, pkgName), bundle.files);
            && d.card - Dests(places) == old(d.card) - Dests(places)
            && (r.Installed? ==> AllLanded(d.md5, d.card, places, bundle.files, |bundle.files|))
  {
    pushes, answers := [], [];
    raw := d.GetHardwareTarget();
    if Strip(raw) == "" {
      return NoTarget, raw, pushes, answers;
    }
    if "f" + Strip(raw) != bundle.target {
      return WrongTarget, raw, pushes, answers;
    }
    var pushed, triggered;
    pushed, pushes, triggered, answers := Deliver(d, bundle, Dest(UPDATE_ROOT, pkgName), canResync);
    if !pushed.Pushed? {
      return NotPushed(pushed), raw, pushes, answers;
    }
    if !triggered.Triggered? {
      return NotTriggered(triggered), raw, pushes, answers;
    }
    d.SystemRebootUpdate();
    return Installed, raw, pushes, answers;
  }

  lemma NoRebootJoin(a: seq<Entry>, n: nat, b: seq<Entry>)
    requires n <= |a| && NoReboot(a, n) && NoReboot(b, 0)
    ensures NoReboot(a + b, n)
  {
  }

  lemma PushesDoNotReboot(log: seq<Entry>, n: nat, bundle: Bundle, pkgDir: string, pushes: seq<seq<Round>>,
                          why: PushResult)
    requires n <= |log| && NoReboot(log, n) && |pushes| <= |bundle.files|
    ensures var log' := AfterPushes(log, bundle, pkgDir, pushes, why); n <= |log'| && NoReboot(log', n)
  {
    var dirs := log + [MadeDir(UPDATE_ROOT)] + [MadeDir(pkgDir)];
    PushLogNoReboot(pkgDir, bundle.files, pushes);
    NoRebootJoin(dirs, n, PushLog(pkgDir, bundle.files, pushes));
    NoRebootJoin(dirs + PushLog(pkgDir, bundle.files, pushes), n, Interrupted(why));
  }

  lemma TriggerDoesNotReboot(log: seq<Entry>, n: nat, manifest: string, answers: seq<Answer<int>>, canResync: bool,
                             reason: TriggerResult)
    requires n <= |log| && NoReboot(log, n)
    ensures var log' := AfterTrigger(log, manifest, answers, canResync, reason); n <= |log'| && NoReboot(log', n)
  {
    TriggerLogNoReboot(manifest, answers, canResync);
    NoRebootJoin(log, n, TriggerLog(manifest, answers, canResync));
  }

  /** The device is rebooted exactly if the installation succeeds, once and as the very last step. */
  lemma RebootsIffInstalled(log: seq<Entry>, bundle: Bundle, raw: string, pkgDir: string, pushes: seq<seq<Round>>,
                            answers: seq<Answer<int>>, canResync: bool, r: InstallResult)
    requires |pushes| <= |bundle.files|
    ensures var log' := InstallLog(log, bundle, raw, pkgDir, pushes, answers, canResync, r);
            && |log'| > |log| && NoReboot(log'[..|log'| - 1], |log|)
            && (log'[|log'| - 1] == Rebooted <==> r.Installed?)
  {
    var n, start := |log|, log + [Targeted(raw)];
    var manifest := Dest(pkgDir, bundle.manifestName);
    match r
    case NoTarget =>
    case WrongTarget =>
    case NotPushed(why) => PushesDoNotReboot(start, n, bundle, pkgDir, pushes, why);
    case NotTriggered(reason) =>
      PushesDoNotReboot(start, n, bundle, pkgDir, pushes, Pushed);
      TriggerDoesNotReboot(AfterPushes(start, bundle, pkgDir, pushes, Pushed), n, manifest, answers, canResync, reason);
    case Installed =>
      PushesDoNotReboot(start, n, bundle, pkgDir, pushes, Pushed);
      TriggerDoesNotReboot(AfterPushes(start, bundle, pkgDir, pushes, Pushed), n, manifest, answers, canResync,
                           Triggered);
  }

  /** For a bundle that was built, what landed at the manifest's place is the last file that goes there. */
  lemma ManifestLanded(md5: Bytes -> string, place: string -> string, card: map<string, Bytes>, pkgDir: string,
                       files: seq<(string, Bytes)>)
    requires HasManifest(files) && AllLanded(md5, card, Places(place, pkgDir, files), files, |files|)
    ensures var places := Places(place, pkgDir, files);
            exists i ::
              && 0 <= i < |files| && IsLast(places, i) && places[i] == place(Dest(pkgDir, MANIFEST))
              && Landed(md5, card, place(Dest(pkgDir, MANIFEST)), files[i].1)
  {
    var places := Places(place, pkgDir, files);
    var i :| 0 <= i < |files| && files[i].0 == MANIFEST;
    var k := LastWith(places, i);
    assert places[..|files|] == places;
    assert Landed(md5, card, places[k], files[k].1);
  }

  lemma LastWith(places: seq<string>, i: nat) returns (k: nat)
    requires i < |places|
    ensures k < |places| && places[k] == places[i] && IsLast(places, k)
    decreases |places| - i
  {
    k := i;
    if j :| i < j < |places| && places[j] == places[i] {
      k := LastWith(places, j);
    }
  }

  /** For a sound bundle every place that an installation can change has a path at or below the package directory. */
  lemma ChangesStayBelow(place: string -> string, pkgDir: string, bundle: Bundle, p: string)
    requires Sound(bundle) && p in Dests(Places(place, pkgDir, bundle.files))
    ensures exists path :: Below(pkgDir, path) && place(path) == p
  {
    var i :| 0 <= i < |bundle.files| && Places(place, pkgDir, bundle.files)[i] == p;
    SafeStaysBelow(pkgDir, bundle.files[i].0);
    assert Below(pkgDir, Dest(pkgDir, bundle.files[i].0));
  }
}
