/** Version history: named snapshots of a file's manifest, newest first, restored by identifier and pruned. */
module Versions {
  import opened Machine
  import opened Chunking
  import opened Timestamp

  datatype VersionEntry = VersionEntry(
    versionId: string,
    timestamp: string,
    unixSecs: nat,
    seqNo: u32,
    manifest: Manifest,
    annotation: string)

  type Store = map<string, seq<VersionEntry>>

  /** The store and the process-wide counter; the counter is 64 bits wide and only its low half is used. */
  datatype State = State(store: Store, counter: nat)

  // ---- identifiers ----

  function VersionId(secs: nat, seqNo: u32): string {
    FormatTimestamp(secs) + "-" + Padded(seqNo, 4)
  }

  predicate NoDash(s: string) {
    forall i :: 0 <= i < |s| ==> s[i] != '-'
  }

  lemma {:induction false} PaddedNoDash(n: nat, width: nat)
    ensures NoDash(Padded(n, width))
    decreases n + width
  {
    if !(n < 10 && width <= 1) {
      PaddedNoDash(n / 10, if width > 0 then width - 1 else 0);
    }
  }

  lemma {:induction false} PaddedInjective(m: nat, n: nat, width: nat)
    requires Padded(m, width) == Padded(n, width)
    ensures m == n
    decreases m + n + width
  {
    var w := if width > 0 then width - 1 else 0;
    PaddedNonEmpty(m / 10, w);
    PaddedNonEmpty(n / 10, w);
    if !(m < 10 && width <= 1) && !(n < 10 && width <= 1) {
      DigitOrder(Padded(m / 10, w), m % 10, Padded(n / 10, w), n % 10);
      PaddedInjective(m / 10, n / 10, w);
    }
  }

  lemma StampNoDash(secs: nat)
    ensures NoDash(FormatTimestamp(secs))
  {
    var date := Calendar.CivilDate(secs / 86400);
    var t := secs % 86400;
    CivilDateNat(secs / 86400);
    hide Calendar.CivilDate, Padded;
    PaddedNoDash(date.year, 4);
    PaddedNoDash(date.month, 2);
    PaddedNoDash(date.day, 2);
    PaddedNoDash(t / 3600, 2);
    PaddedNoDash(t % 3600 / 60, 2);
    PaddedNoDash(t % 60, 2);
  }

  lemma DashSplits(a: string, b: string, c: string, d: string)
    requires NoDash(a) && NoDash(c) && a + "-" + b == c + "-" + d
    ensures a == c && b == d
  {
    var s, t := a + "-" + b, c + "-" + d;
    assert s[|a|] == '-' && t[|c|] == '-';
    assert forall i :: 0 <= i < |a| ==> s[i] == a[i];
    assert forall i :: 0 <= i < |c| ==> t[i] == c[i];
    assert |a| == |c|;
    assert s[..|a|] == a && t[..|c|] == c && s[|a| + 1..] == b && t[|c| + 1..] == d;
  }

  /** Identifiers coincide exactly when both the printed second and the 32-bit sequence number do. */
  lemma VersionIdIff(s: nat, p: u32, t: nat, q: u32)
    ensures VersionId(s, p) == VersionId(t, q) <==> FormatTimestamp(s) == FormatTimestamp(t) && p == q
  {
    hide FormatTimestamp, Padded;
    if VersionId(s, p) == VersionId(t, q) {
      StampNoDash(s);
      StampNoDash(t);
      DashSplits(FormatTimestamp(s), Padded(p, 4), FormatTimestamp(t), Padded(q, 4));
      PaddedInjective(p, q, 4);
    }
  }

  /** An identifier reads as its second's 14 digits, a dash, and the sequence number on at least four digits. */
  lemma VersionIdReads(secs: nat, seqNo: u32)
    requires secs < Y10K
    ensures var id := VersionId(secs, seqNo);
            && |id| >= 19 && id[..14] == FormatTimestamp(secs) && id[14] == '-'
            && AllDigits(id[15..]) && Decimal(id[15..]) == seqNo
            && (|id| > 19 ==> id[15] != '0')
  {
    TimestampWidth(secs);
    PaddedReads(seqNo, 4);
    PaddedWidth(seqNo, 4);
    PaddedLeads(seqNo, 4);
    hide FormatTimestamp, Padded, AllDigits, Decimal;
    var id := VersionId(secs, seqNo);
    assert id[15..] == Padded(seqNo, 4);
    assert |id| > 19 ==> seqNo > 0;
  }

  // ---- one file's history ----

  function Newest(versions: seq<VersionEntry>, keep: nat): seq<VersionEntry> {
    if |versions| <= keep then versions else versions[..keep]
  }

  function Find(versions: seq<VersionEntry>, id: string): Option<VersionEntry> {
    if versions == [] then None
    else if versions[0].versionId == id then Some(versions[0])
    else Find(versions[1..], id)
  }

  function VersionsOf(store: Store, file: string): seq<VersionEntry> {
    if file in store then store[file] else []
  }

  // ---- the operations ----

  function Snapshot(s: State, manifest: Manifest, annotation: string, now: nat): VersionEntry {
    var seqNo := Truncate32(s.counter);
    VersionEntry(VersionId(now, seqNo), FormatTimestamp(now), now, seqNo, manifest, annotation)
  }

  function CreateStep(s: State, file: string, entry: VersionEntry): State {
    State(s.store[file := [entry] + VersionsOf(s.store, file)], s.counter + 1)
  }

  function PruneStep(s: State, file: string, keep: nat): State {
    if file in s.store then s.(store := s.store[file := Newest(s.store[file], keep)]) else s
  }

  function PruneAllStep(s: State, keep: nat): State {
    s.(store := map file | file in s.store :: Newest(s.store[file], keep))
  }

  function RemoveStep(s: State, file: string): State {
    s.(store := s.store - {file})
  }

  function Restore(s: State, file: string, id: string): Result<Manifest> {
    match Find(VersionsOf(s.store, file), id)
    case Some(entry) => Ok(entry.manifest)
    case None => Err("version not found")
  }

  /** The number of versions of all files. */
  ghost function Total(store: Store): nat
    decreases |store.Keys|
  {
    if store.Keys == {} then 0
    else
      var file :| file in store;
      assert (store - {file}).Keys < store.Keys;
      |store[file]| + Total(store - {file})
  }

  lemma {:induction false} TotalWithout(store: Store, file: string)
    requires file in store
    ensures Total(store) == |store[file]| + Total(store - {file})
    decreases |store.Keys|
  {
    var first :| first in store && Total(store) == |store[first]| + Total(store - {first});
    if first != file {
      assert (store - {first}).Keys < store.Keys && (store - {file}).Keys < store.Keys;
      TotalWithout(store - {first}, file);
      TotalWithout(store - {file}, first);
      assert store - {first} - {file} == store - {file} - {first};
    }
  }

  class VersionManager {
    var store: Store
    var counter: nat

    ghost function View(): State
      reads this
    {
      State(store, counter)
    }

    constructor ()
      ensures View() == State(map[], 0)
    {
      store, counter := map[], 0;
    }

    method CreateSnapshot(file: string, manifest: Manifest, annotation: string, now: nat) returns (id: string)
      modifies this
      ensures var entry := Snapshot(old(View()), manifest, annotation, now);
              View() == CreateStep(old(View()), file, entry) && id == entry.versionId
    {
      hide FormatTimestamp, Padded;
      var seqNo := Truncate32(counter);
      counter := counter + 1;
      id := VersionId(now, seqNo);
      var entry := VersionEntry(id, FormatTimestamp(now), now, seqNo, manifest, annotation);
      if file !in store {
        store := store[file := []];
      }
      store := store[file := [entry] + store[file]];
    }

    method RestoreVersion(file: string, id: string) returns (result: Result<Manifest>)
      ensures result == Restore(View(), file, id)
    {
      if file in store {
        var versions := store[file];
        var i := 0;
        while i < |versions|
          invariant i <= |versions|
          invariant Find(versions, id) == Find(versions[i..], id)
        {
          assert versions[i..][1..] == versions[i + 1..];
          if versions[i].versionId == id {
            return Ok(versions[i].manifest);
          }
          i := i + 1;
        }
      }
      return Err("version not found");
    }

    method PruneVersions(file: string, keep: nat) returns (pruned: Option<nat>)
      modifies this`store
      ensures View() == PruneStep(old(View()), file, keep)
      ensures pruned.Some? <==> file in old(store)
      ensures pruned.Some? ==> pruned.value + |store[file]| == |old(store)[file]|
    {
      if file !in store {
        return None;
      }
      var versions := store[file];
      if |versions| <= keep {
        assert store == store[file := versions];
        return Some(0);
      }
      store := store[file := versions[..keep]];
      return Some(|versions| - keep);
    }

    /** Prunes every file; the result is the number of versions that disappeared in all. */
    method PruneAllVersions(keep: nat) returns (pruned: nat)
      modifies this`store
      ensures View() == PruneAllStep(old(View()), keep)
      ensures pruned + Total(store) == Total(old(store))
    {
      hide Total;
      pruned := 0;
      var left := store.Keys;
      while left != {}
        invariant left <= store.Keys == old(store).Keys
        invariant forall file :: file in store ==>
                    store[file] == if file in left then old(store)[file] else Newest(old(store)[file], keep)
        invariant pruned + Total(store) == Total(old(store))
        decreases |left|
      {
        var file :| file in left;
        ghost var before := store;
        var versions := store[file];
        if |versions| > keep {
          pruned := pruned + (|versions| - keep);
          store := store[file := versions[..keep]];
        }
        left := left - {file};
        TotalWithout(before, file);
        TotalWithout(store, file);
        assert before - {file} == store - {file};
      }
    }

    method RemoveFile(file: string) returns (found: bool)
      modifies this`store
      ensures View() == RemoveStep(old(View()), file)
      ensures found <==> file in old(store)
    {
      found := file in store;
      store := store - {file};
    }
  }

  // ---- runs ----

  datatype Op =
    | Create(file: string, manifest: Manifest, annotation: string, now: nat)
    | Prune(file: string, keep: nat)
    | PruneAll(keep: nat)
    | Remove(file: string)
    | Reload

  /** A reload reads the same store back, and starts the counter again at zero. */
  function Next(s: State, op: Op): State {
    match op
    case Create(file, manifest, annotation, now) => CreateStep(s, file, Snapshot(s, manifest, annotation, now))
    case Prune(file, keep) => PruneStep(s, file, keep)
    case PruneAll(keep) => PruneAllStep(s, keep)
    case Remove(file) => RemoveStep(s, file)
    case Reload => s.(counter := 0)
  }

  function Run(ops: seq<Op>): State {
    if ops == [] then State(map[], 0) else Next(Run(ops[..|ops| - 1]), ops[|ops| - 1])
  }

  /** The entry step `i` creates. */
  function Made(ops: seq<Op>, i: nat): VersionEntry
    requires i < |ops| && ops[i].Create?
  {
    Snapshot(Run(ops[..i]), ops[i].manifest, ops[i].annotation, ops[i].now)
  }

  /**
   * How many newer versions of its file stand before the snapshot made by step `i` after `n` steps;
   * None once a prune kept no more versions than that, or the file's history was removed.
   */
  function Rank(ops: seq<Op>, i: nat, n: nat): Option<nat>
    requires i < n <= |ops| && ops[i].Create?
    decreases n
  {
    if n == i + 1 then Some(0)
    else match Rank(ops, i, n - 1)
      case None => None
      case Some(newer) =>
        match ops[n - 1]
        case Create(file, _, _, _) => Some(if file == ops[i].file then newer + 1 else newer)
        case Prune(file, keep) => if file == ops[i].file && keep <= newer then None else Some(newer)
        case PruneAll(keep) => if keep <= newer then None else Some(newer)
        case Remove(file) => if file == ops[i].file then None else Some(newer)
        case Reload => Some(newer)
  }

  /** No later snapshot of the same file reuses the identifier of step `i`. */
  predicate IdStaysUnique(ops: seq<Op>, i: nat)
    requires i < |ops| && ops[i].Create?
  {
    forall j :: i < j < |ops| && ops[j].Create? && ops[j].file == ops[i].file ==>
      Made(ops, j).versionId != Made(ops, i).versionId
  }

  /** Where step `i`'s entry is after `n` steps, and what precedes it. */
  ghost predicate Placed(ops: seq<Op>, i: nat, n: nat)
    requires i < n <= |ops| && ops[i].Create?
  {
    var versions := VersionsOf(Run(ops[..n]).store, ops[i].file);
    match Rank(ops, i, n)
    case None => forall k :: 0 <= k < |versions| ==> versions[k].versionId != Made(ops, i).versionId
    case Some(newer) =>
      && newer < |versions| && versions[newer] == Made(ops, i)
      && forall k :: 0 <= k < newer ==> versions[k].versionId != Made(ops, i).versionId
  }

  lemma RunStep(ops: seq<Op>, n: nat)
    requires n < |ops|
    ensures Run(ops[..n + 1]) == Next(Run(ops[..n]), ops[n])
  {
    assert ops[..n + 1][..n] == ops[..n];
  }

  lemma {:induction false} PlacedAlways(ops: seq<Op>, i: nat, n: nat)
    requires i < n <= |ops| && ops[i].Create? && IdStaysUnique(ops, i)
    ensures Placed(ops, i, n)
    decreases n
  {
    hide Run, VersionId, FormatTimestamp;
    RunStep(ops, n - 1);
    if n > i + 1 {
      PlacedAlways(ops, i, n - 1);
      if ops[n - 1].Create? && ops[n - 1].file == ops[i].file {
        assert Made(ops, n - 1).versionId != Made(ops, i).versionId;
      }
    }
  }

  lemma {:induction false} FindFirst(versions: seq<VersionEntry>, id: string, k: nat)
    requires k <= |versions| && (k < |versions| ==> versions[k].versionId == id)
    requires forall j :: 0 <= j < k ==> versions[j].versionId != id
    ensures Find(versions, id) == if k < |versions| then Some(versions[k]) else None
  {
    if k > 0 {
      FindFirst(versions[1..], id, k - 1);
    }
  }

  /** For an identifier that is not used again: the snapshot itself, or an error. */
  lemma RestoreUnique(ops: seq<Op>, i: nat)
    requires i < |ops| && ops[i].Create? && IdStaysUnique(ops, i)
    ensures Restore(Run(ops), ops[i].file, Made(ops, i).versionId) ==
            if Rank(ops, i, |ops|).Some? then Ok(ops[i].manifest) else Err("version not found")
  {
    hide Run, VersionId, FormatTimestamp, Find, Rank;
    PlacedAlways(ops, i, |ops|);
    assert ops[..|ops|] == ops;
    var versions := VersionsOf(Run(ops).store, ops[i].file);
    var rank := Rank(ops, i, |ops|);
    FindFirst(versions, Made(ops, i).versionId, if rank.Some? then rank.value else |versions|);
  }

  /** The last position of what stands at position `i`. */
  function LastEqual<T(==)>(s: seq<T>, i: nat): (j: nat)
    requires i < |s|
    ensures i <= j < |s| && s[j] == s[i]
    ensures forall k :: j < k < |s| ==> s[k] != s[i]
  {
    if i == |s| - 1 || s[|s| - 1] == s[i] then |s| - 1 else LastEqual(s[..|s| - 1], i)
  }

  /** The file and identifier of each snapshot. */
  function Labels(ops: seq<Op>): seq<Option<(string, string)>> {
    seq(|ops|, j requires 0 <= j < |ops| =>
      if ops[j].Create? then Some((ops[j].file, Made(ops, j).versionId)) else None)
  }

  /** The last snapshot of the file of step `i` under the identifier of step `i`. */
  function LastSame(ops: seq<Op>, i: nat): (j: nat)
    requires i < |ops| && ops[i].Create?
    ensures i <= j < |ops| && ops[j].Create? && ops[j].file == ops[i].file
  {
    hide Made;
    LastEqual(Labels(ops), i)
  }

  lemma LastSameMeans(ops: seq<Op>, i: nat)
    requires i < |ops| && ops[i].Create?
    ensures Made(ops, LastSame(ops, i)).versionId == Made(ops, i).versionId
    ensures IdStaysUnique(ops, LastSame(ops, i))
    ensures IdStaysUnique(ops, i) ==> LastSame(ops, i) == i
  {
    hide Made;
    var labels := Labels(ops);
    var j := LastSame(ops, i);
    assert labels[j] == labels[i];
    forall k | j < k < |ops| && ops[k].Create? && ops[k].file == ops[j].file
      ensures Made(ops, k).versionId != Made(ops, j).versionId
    {
      assert labels[k] != labels[i];
    }
  }

  /**
   * On every run, restoring the identifier of a snapshot gives exactly the manifest of the last snapshot
   * of its file under that identifier while fewer newer versions stand before it than every prune since
   * has kept, and an error from then on.
   */
  lemma RestoreIsExact(ops: seq<Op>, i: nat)
    requires i < |ops| && ops[i].Create?
    ensures var j := LastSame(ops, i);
            Restore(Run(ops), ops[i].file, Made(ops, i).versionId) ==
            if Rank(ops, j, |ops|).Some? then Ok(ops[j].manifest) else Err("version not found")
  {
    hide Run, Made, Rank, Restore, LastSame;
    LastSameMeans(ops, i);
    RestoreUnique(ops, LastSame(ops, i));
  }

  // ---- when identifiers are unique ----

  lemma {:induction false} CounterCounts(ops: seq<Op>, m: nat, n: nat)
    requires m <= n <= |ops| && forall k :: 0 <= k < |ops| ==> !ops[k].Reload?
    ensures Run(ops[..m]).counter <= Run(ops[..n]).counter <= n
    ensures m < n && ops[m].Create? ==> Run(ops[..m]).counter < Run(ops[..n]).counter
    decreases n
  {
    hide Run, VersionId, FormatTimestamp;
    if n == 0 {
      RunEmpty(ops[..0]);
    } else {
      RunStep(ops, n - 1);
      if m < n {
        CounterCounts(ops, m, n - 1);
      } else {
        CounterCounts(ops, n - 1, n - 1);
      }
    }
  }

  lemma RunEmpty(ops: seq<Op>)
    requires ops == []
    ensures Run(ops) == State(map[], 0)
  {
  }

  /** Without a reload no identifier repeats in the first 2^32 steps, even when the clock goes back. */
  lemma UniqueWithoutReload(ops: seq<Op>, i: nat)
    requires i < |ops| <= WORD && ops[i].Create?
    requires forall k :: 0 <= k < |ops| ==> !ops[k].Reload?
    ensures IdStaysUnique(ops, i)
  {
    hide Run, VersionId, FormatTimestamp;
    forall j | i < j < |ops| && ops[j].Create?
      ensures Made(ops, j).versionId != Made(ops, i).versionId
    {
      CounterCounts(ops, i, j);
      CounterCounts(ops, i, i);
      VersionIdIff(ops[i].now, Made(ops, i).seqNo, ops[j].now, Made(ops, j).seqNo);
    }
  }

  /** A reload between two snapshots in one second does repeat it, and the first manifest is out of reach. */
  lemma ReloadRepeatsId(file: string, first: Manifest, second: Manifest, now: nat, ops: seq<Op>)
    requires ops == [Create(file, first, "", now), Reload, Create(file, second, "", now)]
    ensures Made(ops, 2).versionId == Made(ops, 0).versionId
    ensures Restore(Run(ops), file, Made(ops, 0).versionId) == Ok(second)
  {
    hide Run, VersionId, FormatTimestamp;
    RunEmpty(ops[..0]);
    RunStep(ops, 0);
    RunStep(ops, 1);
    RunStep(ops, 2);
    assert ops[..3] == ops;
  }

  // ---- the whole history ----

  /** The snapshots taken since the last reload. */
  function CreatesSince(ops: seq<Op>): nat {
    if ops == [] then 0
    else
      var before := CreatesSince(ops[..|ops| - 1]);
      match ops[|ops| - 1]
      case Create(_, _, _, _) => before + 1
      case Reload => 0
      case _ => before
  }

  lemma {:induction false} CounterIsCreates(ops: seq<Op>)
    ensures Run(ops).counter == CreatesSince(ops)
  {
    hide Snapshot;
    if ops != [] {
      CounterIsCreates(ops[..|ops| - 1]);
    }
  }

  /** What step `i` was asked to record, at its second and under its number. */
  predicate RecordedBy(ops: seq<Op>, i: nat, e: VersionEntry)
    requires i < |ops| && ops[i].Create?
  {
    && e.manifest == ops[i].manifest && e.annotation == ops[i].annotation
    && e.unixSecs == ops[i].now && e.timestamp == FormatTimestamp(ops[i].now)
    && e.seqNo == CreatesSince(ops[..i]) % 0x1_0000_0000
    && e.versionId == VersionId(ops[i].now, e.seqNo)
  }

  lemma {:induction false} RankedIsThere(ops: seq<Op>, i: nat, n: nat)
    requires i < n <= |ops| && ops[i].Create?
    ensures var versions := VersionsOf(Run(ops[..n]).store, ops[i].file);
            match Rank(ops, i, n)
            case None => true
            case Some(newer) => newer < |versions| && versions[newer] == Made(ops, i)
    decreases n
  {
    hide Run, VersionId, FormatTimestamp;
    RunStep(ops, n - 1);
    if n > i + 1 {
      RankedIsThere(ops, i, n - 1);
    }
  }

  lemma {:induction false} ThereIsRanked(ops: seq<Op>, file: string, k: nat, n: nat) returns (i: nat)
    requires n <= |ops| && k < |VersionsOf(Run(ops[..n]).store, file)|
    ensures i < n && ops[i].Create? && ops[i].file == file && Rank(ops, i, n) == Some(k)
    decreases n
  {
    hide Run, VersionId, FormatTimestamp;
    if n == 0 {
      RunEmpty(ops[..0]);
      assert false;
    } else {
      RunStep(ops, n - 1);
      match ops[n - 1]
      case Create(f, _, _, _) =>
        if f == file && k == 0 {
          i := n - 1;
        } else {
          i := ThereIsRanked(ops, file, if f == file then k - 1 else k, n - 1);
        }
      case _ => i := ThereIsRanked(ops, file, k, n - 1);
    }
  }

  /** Step `i` took the snapshot of the file that stands at place `k` of its history. */
  predicate StandsAt(ops: seq<Op>, i: nat, file: string, k: nat)
    requires i < |ops|
  {
    ops[i].Create? && ops[i].file == file && Rank(ops, i, |ops|) == Some(k)
  }

  ghost predicate Taken(ops: seq<Op>, file: string, k: nat) {
    exists i: nat :: i < |ops| && StandsAt(ops, i, file, k)
  }

  /**
   * On every run the history of a file is exactly its snapshots that no prune or removal has reached,
   * the newest first, each as it was taken: `k` newer ones stand before the one at place `k`.
   */
  lemma HistoryIsExact(ops: seq<Op>, file: string)
    ensures var versions := VersionsOf(Run(ops).store, file);
            && (forall i: nat, k: nat :: i < |ops| && StandsAt(ops, i, file, k) ==>
                  k < |versions| && RecordedBy(ops, i, versions[k]))
            && (forall k: nat :: k < |versions| ==> Taken(ops, file, k))
  {
    hide Run, VersionId, FormatTimestamp, Rank;
    assert ops[..|ops|] == ops;
    var versions := VersionsOf(Run(ops).store, file);
    forall i: nat, k: nat | i < |ops| && StandsAt(ops, i, file, k)
      ensures k < |versions| && RecordedBy(ops, i, versions[k])
    {
      RankedIsThere(ops, i, |ops|);
      CounterIsCreates(ops[..i]);
    }
    forall k: nat | k < |versions|
      ensures Taken(ops, file, k)
    {
      var i := ThereIsRanked(ops, file, k, |ops|);
      assert StandsAt(ops, i, file, k);
    }
  }
}
