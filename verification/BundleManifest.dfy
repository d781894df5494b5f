/**
 The output directory of prepare commands: one Safe file per bundle and an append-only manifest.
 A run may stop with an error after having written some of its files; the manifest is saved last.
 */
module BundleManifest {
  import opened Wrappers
  import opened Text

  // ----- bundles and envelopes -----

  /** A transaction record; any of its fields may be missing. */
  datatype RawTx = RawTx(to: Option<string>, value: Option<string>, data: Option<string>)

  datatype SafeTx = SafeTx(to: string, value: string, data: string)

  datatype SafeBundle = SafeBundle(target: string, steps: seq<string>, txs: seq<RawTx>)

  datatype Envelope = Envelope(chainId: nat, createdAt: nat, name: string, description: seq<string>, transactions: seq<SafeTx>)

  datatype Entry = Entry(index: nat, file: string, target: string, steps: seq<string>, txCount: nat)

  predicate Complete(tx: RawTx) {
    tx.to.Some? && tx.value.Some? && tx.data.Some?
  }

  function SafeTxOf(tx: RawTx): SafeTx
    requires Complete(tx)
  {
    SafeTx(tx.to.value, tx.value.value, tx.data.value)
  }

  /** Every field is kept under its own name. */
  predicate Carries(safe: SafeTx, tx: RawTx) {
    tx.to == Some(safe.to) && tx.value == Some(safe.value) && tx.data == Some(safe.data)
  }

  /** Fails exactly on a record with a missing field; otherwise keeps all records in order. */
  function SafeTxs(txs: seq<RawTx>): (r: Option<seq<SafeTx>>)
    ensures r.Some? <==> forall i :: 0 <= i < |txs| ==> Complete(txs[i])
    ensures r.Some? ==> |r.value| == |txs| && forall i :: 0 <= i < |txs| ==> Carries(r.value[i], txs[i])
  {
    if txs == [] then Some([])
    else
      var n := |txs| - 1;
      match SafeTxs(txs[..n])
      case None => None
      case Some(out) => if Complete(txs[n]) then Some(out + [SafeTxOf(txs[n])]) else None
  }

  method SafeTxsFromBundle(bundle: SafeBundle) returns (r: Option<seq<SafeTx>>)
    ensures r == SafeTxs(bundle.txs)
    ensures r.Some? <==> forall i :: 0 <= i < |bundle.txs| ==>
      bundle.txs[i].to.Some? && bundle.txs[i].value.Some? && bundle.txs[i].data.Some?
    ensures r.Some? ==> |r.value| == |bundle.txs| && forall i :: 0 <= i < |bundle.txs| ==>
      bundle.txs[i] == RawTx(Some(r.value[i].to), Some(r.value[i].value), Some(r.value[i].data))
  {
    var out: seq<SafeTx> := [];
    for i := 0 to |bundle.txs|
      invariant SafeTxs(bundle.txs[..i]) == Some(out)
    {
      var tx := bundle.txs[i];
      assert bundle.txs[..i + 1][..i] == bundle.txs[..i];
      if !Complete(tx) {
        return None;
      }
      out := out + [SafeTxOf(tx)];
    }
    assert bundle.txs[..|bundle.txs|] == bundle.txs;
    r := Some(out);
  }

  // ----- file names -----

  /** `{:02}`: at least two digits. */
  function Padded(n: nat): (s: string)
    ensures s != "" && AllDigits(s)
  {
    if n < 10 then "0" + Decimal(n) else Decimal(n)
  }

  lemma PaddedInjective(m: nat, n: nat)
    requires Padded(m) == Padded(n)
    ensures m == n
  {
    PaddedValue(m);
    PaddedValue(n);
  }

  lemma PaddedValue(n: nat)
    ensures DecimalValue(Padded(n)) == n
  {
    DecimalRoundTrip(n);
    if n < 10 {
      var s := Padded(n);
      assert s == ['0', DigitChar(n)];
      assert s[..1] == ['0'] && s[..1][..0] == [];
    }
  }

  function FileName(index: nat, step: string, target: string): string {
    Padded(index) + "_" + step + "_" + target + ".safe.json"
  }

  lemma NameFrom(number: string, step: string, target: string, name: string)
    requires AllDigits(number) && name == number + "_" + step + "_" + target + ".safe.json"
    ensures Find(name, '_') == |number| && name[..|number|] == number
  {
    assert name == number + ("_" + step + "_" + target + ".safe.json");
    forall k | 0 <= k < |number| ensures name[k] != '_' {
      assert IsDigit(number[k]);
    }
    FindUnique(name, '_', |number|);
  }

  lemma IndexEndsAtUnderscore(index: nat, step: string, target: string)
    ensures Find(FileName(index, step, target), '_') == |Padded(index)|
    ensures FileName(index, step, target)[..|Padded(index)|] == Padded(index)
  {
    NameFrom(Padded(index), step, target, FileName(index, step, target));
  }

  /** Different indices never share a file name, whatever steps and targets contain. */
  lemma FileNamesDiffer(i: nat, step: string, target: string, j: nat, step': string, target': string)
    requires FileName(i, step, target) == FileName(j, step', target')
    ensures i == j
  {
    IndexEndsAtUnderscore(i, step, target);
    IndexEndsAtUnderscore(j, step', target');
    PaddedInjective(i, j);
  }

  // ----- one run -----

  datatype Manifest = Missing | Malformed | Present(bundles: seq<Entry>, metadata: seq<string>)

  /**
   The directory. `written` is a history variable: the envelope that was written for each listed
   entry, at the time it was written.
   */
  datatype Dir = Dir(manifest: Manifest, files: map<string, Envelope>, written: seq<Envelope>)

  /**
   One invocation, with what the environment does to it: whether saving bundle `i` succeeds, what a
   failed save leaves in the file, and whether the final save of the manifest succeeds.
   */
  datatype Run = Run(
    command: string, bundles: seq<SafeBundle>, chainId: nat, createdAt: nat, metadata: string,
    saves: nat -> bool, leftover: nat -> Option<Envelope>, manifestSaved: bool)

  function Entries(m: Manifest): seq<Entry> {
    if m.Present? then m.bundles else []
  }

  function Metadata(m: Manifest): seq<string> {
    if m.Present? then m.metadata else []
  }

  function MaxIndex(entries: seq<Entry>): (n: nat)
    ensures forall i :: 0 <= i < |entries| ==> entries[i].index <= n
  {
    if entries == [] then 0
    else
      var n, last := MaxIndex(entries[..|entries| - 1]), entries[|entries| - 1].index;
      if n < last then last else n
  }

  function FirstStep(r: Run, i: nat): string
    requires i < |r.bundles|
  {
    if r.bundles[i].steps == [] then r.command else r.bundles[i].steps[0]
  }

  function Lower(s: string): string {
    seq(|s|, i requires 0 <= i < |s| => if 'A' <= s[i] <= 'Z' then (s[i] as int + 32) as char else s[i])
  }

  function NameOf(r: Run, next: nat, i: nat): string
    requires i < |r.bundles|
  {
    FileName(next + i, FirstStep(r, i), Lower(r.bundles[i].target))
  }

  /** The names a bundle's description lists; the fixed wording around them is not modelled. */
  function Description(r: Run, i: nat): seq<string>
    requires i < |r.bundles|
  {
    if r.bundles[i].steps == [] then [r.command] else r.bundles[i].steps
  }

  function EnvelopeOf(r: Run, i: nat): Envelope
    requires i < |r.bundles| && SafeTxs(r.bundles[i].txs).Some?
  {
    Envelope(r.chainId, r.createdAt, FirstStep(r, i), Description(r, i), SafeTxs(r.bundles[i].txs).value)
  }

  function EntryOf(r: Run, next: nat, i: nat): Entry
    requires i < |r.bundles|
  {
    var b := r.bundles[i];
    Entry(next + i, NameOf(r, next, i), Lower(b.target), b.steps, |b.txs|)
  }

  /** All there is to know about one bundle: its entry, its envelope if complete, and the fate of its file. */
  datatype Job = Job(entry: Entry, envelope: Option<Envelope>, saved: bool, leftover: Option<Envelope>)

  function JobOf(r: Run, next: nat, i: nat): Job
    requires i < |r.bundles|
  {
    Job(EntryOf(r, next, i), if SafeTxs(r.bundles[i].txs).Some? then Some(EnvelopeOf(r, i)) else None, r.saves(i), r.leftover(i))
  }

  /** The jobs of the first `n` bundles. */
  function Jobs(r: Run, next: nat, n: nat): (jobs: seq<Job>)
    requires n <= |r.bundles|
    ensures |jobs| == n
  {
    seq(n, i requires 0 <= i < n => JobOf(r, next, i))
  }

  lemma JobAt(r: Run, next: nat, n: nat, i: nat)
    requires i < n <= |r.bundles|
    ensures Jobs(r, next, n)[i] == JobOf(r, next, i)
  {
  }

  /** Progress of the loop over the bundles. */
  datatype Progress = Progress(files: map<string, Envelope>, entries: seq<Entry>, written: seq<Envelope>, failed: bool)

  /** What the loop does for one bundle; after a failure it does nothing more. */
  function Write(p: Progress, job: Job): Progress {
    if p.failed then p
    else if job.envelope.None? then p.(failed := true)
    else if !job.saved then
      p.(failed := true, files := if job.leftover.Some? then p.files[job.entry.file := job.leftover.value] else p.files)
    else
      Progress(p.files[job.entry.file := job.envelope.value], p.entries + [job.entry], p.written + [job.envelope.value], false)
  }

  function Loop(files: map<string, Envelope>, jobs: seq<Job>): Progress {
    if jobs == [] then Progress(files, [], [], false) else Write(Loop(files, jobs[..|jobs| - 1]), jobs[|jobs| - 1])
  }

  /** The directory once the loop has ended in `p`. */
  function Finish(d: Dir, p: Progress, metadata: string, manifestSaved: bool): Dir {
    if p.failed || !manifestSaved then d.(files := p.files)
    else Dir(Present(Entries(d.manifest) + p.entries, Metadata(d.manifest) + [metadata]), p.files, d.written + p.written)
  }

  /** The directory after one run. */
  function After(d: Dir, r: Run): Dir {
    if d.manifest.Malformed? then d
    else AfterJobs(d, r, Jobs(r, MaxIndex(Entries(d.manifest)) + 1, |r.bundles|))
  }

  function AfterJobs(d: Dir, r: Run, jobs: seq<Job>): Dir {
    Finish(d, Loop(d.files, jobs), r.metadata, r.manifestSaved)
  }

  function AfterAll(d: Dir, runs: seq<Run>): Dir {
    if runs == [] then d else After(AfterAll(d, runs[..|runs| - 1]), runs[|runs| - 1])
  }

  // ----- what every run keeps -----

  ghost predicate Named(e: Entry) {
    exists step :: e.file == FileName(e.index, step, e.target)
  }

  /** Indices ascend, names carry the index, and each listed file holds its own envelope. */
  ghost predicate Intact(entries: seq<Entry>, files: map<string, Envelope>, written: seq<Envelope>) {
    && |written| == |entries|
    && (forall i, j :: 0 <= i < j < |entries| ==> entries[i].index < entries[j].index)
    && (forall i :: 0 <= i < |entries| ==> Named(entries[i]))
    && (forall i :: 0 <= i < |entries| ==> entries[i].file in files && files[entries[i].file] == written[i])
  }

  ghost predicate Valid(d: Dir) {
    Intact(Entries(d.manifest), d.files, d.written)
  }

  /** Listed file names are pairwise distinct. */
  lemma ListedFilesDistinct(d: Dir, i: nat, j: nat)
    requires Valid(d) && i < j < |Entries(d.manifest)|
    ensures Entries(d.manifest)[i].file != Entries(d.manifest)[j].file
  {
    var a, b := Entries(d.manifest)[i], Entries(d.manifest)[j];
    assert Named(a) && Named(b);
    var s :| a.file == FileName(a.index, s, a.target);
    var t :| b.file == FileName(b.index, t, b.target);
    if a.file == b.file {
      FileNamesDiffer(a.index, s, a.target, b.index, t, b.target);
    }
  }

  /** Writing a file for a fresh index leaves every listed file alone. */
  lemma FreshFile(entries: seq<Entry>, files: map<string, Envelope>, written: seq<Envelope>,
                  index: nat, step: string, target: string, content: Envelope)
    requires Intact(entries, files, written) && forall i :: 0 <= i < |entries| ==> entries[i].index < index
    ensures Intact(entries, files[FileName(index, step, target) := content], written)
  {
    forall i | 0 <= i < |entries| ensures entries[i].file != FileName(index, step, target) {
      var e := entries[i];
      assert Named(e);
      var s :| e.file == FileName(e.index, s, e.target);
      if e.file == FileName(index, step, target) {
        FileNamesDiffer(e.index, s, e.target, index, step, target);
      }
    }
  }

  ghost predicate Below(entries: seq<Entry>, bound: nat) {
    forall i :: 0 <= i < |entries| ==> entries[i].index < bound
  }

  lemma AppendEntry(entries: seq<Entry>, files: map<string, Envelope>, written: seq<Envelope>, e: Entry, step: string, content: Envelope)
    requires Intact(entries, files, written) && Below(entries, e.index) && e.file == FileName(e.index, step, e.target)
    ensures Intact(entries + [e], files[e.file := content], written + [content])
    ensures Below(entries + [e], e.index + 1)
  {
    FreshFile(entries, files, written, e.index, step, e.target, content);
    assert Named(e);
  }

  /** During the loop both the entries listed so far and the new ones are intact. */
  ghost predicate Kept(listed: seq<Entry>, written: seq<Envelope>, p: Progress, bound: nat) {
    && Intact(listed, p.files, written)
    && Intact(listed + p.entries, p.files, written + p.written)
    && Below(listed + p.entries, bound) && Below(listed, bound)
  }

  lemma LeftoverKeeps(listed: seq<Entry>, written: seq<Envelope>, p: Progress, index: nat, step: string, target: string, content: Envelope)
    requires Kept(listed, written, p, index)
    ensures Kept(listed, written, p.(files := p.files[FileName(index, step, target) := content]), index)
  {
    FreshFile(listed, p.files, written, index, step, target, content);
    FreshFile(listed + p.entries, p.files, written + p.written, index, step, target, content);
  }

  lemma AppendKeeps(listed: seq<Entry>, written: seq<Envelope>, p: Progress, e: Entry, step: string, content: Envelope)
    requires Kept(listed, written, p, e.index) && e.file == FileName(e.index, step, e.target)
    ensures Kept(listed, written, Progress(p.files[e.file := content], p.entries + [e], p.written + [content], false), e.index + 1)
  {
    FreshFile(listed, p.files, written, e.index, step, e.target, content);
    AppendEntry(listed + p.entries, p.files, written + p.written, e, step, content);
    assert listed + (p.entries + [e]) == (listed + p.entries) + [e];
    assert written + (p.written + [content]) == (written + p.written) + [content];
  }

  /** Jobs number their entries consecutively and name their files after the number. */
  ghost predicate Consecutive(jobs: seq<Job>, next: nat) {
    forall i :: 0 <= i < |jobs| ==> jobs[i].entry.index == next + i && Named(jobs[i].entry)
  }

  lemma JobsConsecutive(r: Run, next: nat)
    ensures Consecutive(Jobs(r, next, |r.bundles|), next)
  {
    var jobs := Jobs(r, next, |r.bundles|);
    forall i | 0 <= i < |jobs| ensures jobs[i].entry.index == next + i && Named(jobs[i].entry) {
      JobAt(r, next, |r.bundles|, i);
      assert jobs[i].entry.file == FileName(next + i, FirstStep(r, i), jobs[i].entry.target);
    }
  }

  lemma KeptLater(listed: seq<Entry>, written: seq<Envelope>, p: Progress, bound: nat)
    requires Kept(listed, written, p, bound)
    ensures Kept(listed, written, p, bound + 1)
    ensures Kept(listed, written, p.(failed := true), bound + 1)
  {
  }

  lemma WriteKeeps(listed: seq<Entry>, written: seq<Envelope>, p: Progress, job: Job)
    requires Named(job.entry) && Kept(listed, written, p, job.entry.index)
    ensures Kept(listed, written, Write(p, job), job.entry.index + 1)
  {
    var e := job.entry;
    var step :| e.file == FileName(e.index, step, e.target);
    KeptLater(listed, written, p, e.index);
    if !p.failed && job.envelope.Some? {
      if job.saved {
        AppendKeeps(listed, written, p, e, step, job.envelope.value);
      } else if job.leftover.Some? {
        var q := p.(files := p.files[e.file := job.leftover.value]);
        LeftoverKeeps(listed, written, p, e.index, step, e.target, job.leftover.value);
        KeptLater(listed, written, q, e.index);
      }
    }
  }

  lemma {:induction false} LoopKeeps(d: Dir, jobs: seq<Job>, next: nat)
    requires Valid(d) && Below(Entries(d.manifest), next) && Consecutive(jobs, next)
    ensures Kept(Entries(d.manifest), d.written, Loop(d.files, jobs), next + |jobs|)
  {
    var listed := Entries(d.manifest);
    if jobs == [] {
      assert listed + [] == listed && d.written + [] == d.written;
    } else {
      var n := |jobs| - 1;
      LoopKeeps(d, jobs[..n], next);
      WriteKeeps(listed, d.written, Loop(d.files, jobs[..n]), jobs[n]);
    }
  }

  lemma FinishKeeps(d: Dir, p: Progress, metadata: string, manifestSaved: bool, bound: nat)
    requires Kept(Entries(d.manifest), d.written, p, bound)
    ensures Extends(d, Finish(d, p, metadata, manifestSaved))
  {
  }

  /** `d'` extends `d`: it is valid and has all entries, metadata and envelopes of `d` first. */
  ghost predicate Extends(d: Dir, d': Dir) {
    && Valid(d')
    && Entries(d.manifest) <= Entries(d'.manifest)
    && Metadata(d.manifest) <= Metadata(d'.manifest)
    && d.written <= d'.written
  }

  lemma JobsKeep(d: Dir, jobs: seq<Job>, next: nat, metadata: string, manifestSaved: bool)
    requires Valid(d) && Below(Entries(d.manifest), next) && Consecutive(jobs, next)
    ensures Extends(d, Finish(d, Loop(d.files, jobs), metadata, manifestSaved))
  {
    LoopKeeps(d, jobs, next);
    FinishKeeps(d, Loop(d.files, jobs), metadata, manifestSaved, next + |jobs|);
  }

  lemma AfterIs(d: Dir, r: Run, jobs: seq<Job>)
    requires !d.manifest.Malformed? && jobs == Jobs(r, MaxIndex(Entries(d.manifest)) + 1, |r.bundles|)
    ensures After(d, r) == AfterJobs(d, r, jobs)
  {
  }

  lemma RunKeepsFrom(d: Dir, r: Run, next: nat, jobs: seq<Job>)
    requires Valid(d) && next == MaxIndex(Entries(d.manifest)) + 1 && jobs == Jobs(r, next, |r.bundles|)
    ensures Extends(d, Finish(d, Loop(d.files, jobs), r.metadata, r.manifestSaved))
  {
    JobsConsecutive(r, next);
    JobsKeep(d, jobs, next, r.metadata, r.manifestSaved);
  }

  lemma NothingLost(d: Dir)
    requires Valid(d)
    ensures Extends(d, d)
  {
  }

  lemma PresentRunKeeps(d: Dir, r: Run, d': Dir)
    requires Valid(d) && !d.manifest.Malformed? && d' == After(d, r)
    ensures Extends(d, d')
  {
    var next := MaxIndex(Entries(d.manifest)) + 1;
    var jobs := Jobs(r, next, |r.bundles|);
    AfterIs(d, r, jobs);
    RunKeepsFrom(d, r, next, jobs);
  }

  /** One run, successful or not, keeps the directory valid and earlier entries as a prefix. */
  lemma RunKeeps(d: Dir, r: Run)
    requires Valid(d)
    ensures Extends(d, After(d, r))
  {
    if d.manifest.Malformed? {
      NothingLost(d);
    } else {
      PresentRunKeeps(d, r, After(d, r));
    }
  }

  /**
   Over every sequence of runs, including runs that stop part-way: the directory stays valid,
   earlier entries stay a prefix, and every file listed before still holds the envelope written
   for it.
   */
  lemma {:induction false} AllRunsKeep(d: Dir, runs: seq<Run>)
    requires Valid(d)
    ensures Extends(d, AfterAll(d, runs))
    ensures forall i :: 0 <= i < |Entries(d.manifest)| ==>
      && Entries(d.manifest)[i].file in AfterAll(d, runs).files
      && AfterAll(d, runs).files[Entries(d.manifest)[i].file] == d.files[Entries(d.manifest)[i].file]
  {
    if runs != [] {
      AllRunsKeep(d, runs[..|runs| - 1]);
      RunKeeps(AfterAll(d, runs[..|runs| - 1]), runs[|runs| - 1]);
    }
  }

  // ----- what one run writes -----

  /** Bundle `i` is complete and its file is saved. */
  predicate Stored(r: Run, i: nat)
    requires i < |r.bundles|
  {
    SafeTxs(r.bundles[i].txs).Some? && r.saves(i)
  }

  /** Number of bundles among the first `n` that are stored before the first that is not. */
  function Leading(r: Run, n: nat): (k: nat)
    requires n <= |r.bundles|
    ensures k <= n && (forall i :: 0 <= i < k ==> Stored(r, i)) && (k < n ==> !Stored(r, k))
  {
    if n == 0 then 0
    else
      var k := Leading(r, n - 1);
      if k == n - 1 && Stored(r, n - 1) then n else k
  }

  /** A failed save may still leave a file. */
  predicate LeavesFile(r: Run, i: nat)
    requires i < |r.bundles|
  {
    SafeTxs(r.bundles[i].txs).Some? && r.leftover(i).Some?
  }

  /** Number of files written when only the first `n` bundles are visited. */
  function Touched(r: Run, n: nat): nat
    requires n <= |r.bundles|
  {
    var k := Leading(r, n);
    if k < n && LeavesFile(r, k) then k + 1 else k
  }

  /** The run stores every bundle and saves the manifest. */
  predicate Succeeds(r: Run) {
    r.manifestSaved && forall i :: 0 <= i < |r.bundles| ==> Stored(r, i)
  }

  /** The names of the first `n` files when numbering starts at `next`. */
  function Names(r: Run, next: nat, n: nat): set<string>
    requires n <= |r.bundles|
  {
    set i | 0 <= i < n :: NameOf(r, next, i)
  }

  lemma NamesSnoc(r: Run, next: nat, n: nat)
    requires n < |r.bundles|
    ensures Names(r, next, n + 1) == Names(r, next, n) + {NameOf(r, next, n)}
  {
    var last, before, after := NameOf(r, next, n), Names(r, next, n), Names(r, next, n + 1);
    forall f ensures f in after <==> f in before + {last} {
      if f in after {
        var i :| 0 <= i < n + 1 && f == NameOf(r, next, i);
        assert i < n ==> f in before;
      }
    }
  }

  /** The names and numbers of the entries for the first `n` bundles. */
  ghost predicate EntriesFor(entries: seq<Entry>, r: Run, next: nat, n: nat)
    requires n <= |r.bundles|
  {
    |entries| == n && forall i :: 0 <= i < n ==> entries[i].file == NameOf(r, next, i) && entries[i].index == next + i
  }

  lemma TouchedStep(r: Run, n: nat)
    requires n < |r.bundles|
    ensures Leading(r, n) < n ==> Leading(r, n + 1) < n + 1 && Touched(r, n + 1) == Touched(r, n)
    ensures Leading(r, n) == n ==> Touched(r, n) == n && (Leading(r, n + 1) == n + 1 <==> Stored(r, n))
    ensures Leading(r, n) == n ==> Touched(r, n + 1) == if Stored(r, n) || LeavesFile(r, n) then n + 1 else n
  {
  }

  lemma EntriesForSnoc(entries: seq<Entry>, e: Entry, r: Run, next: nat, n: nat)
    requires n < |r.bundles| && EntriesFor(entries, r, next, n) && e.file == NameOf(r, next, n) && e.index == next + n
    ensures EntriesFor(entries + [e], r, next, n + 1)
  {
  }

  /** `job` is bundle `n` of the run. */
  ghost predicate IsJob(job: Job, r: Run, next: nat, n: nat)
    requires n < |r.bundles|
  {
    && (job.envelope.Some? && job.saved <==> Stored(r, n))
    && (job.envelope.Some? && job.leftover.Some? <==> LeavesFile(r, n))
    && job.entry.file == NameOf(r, next, n) && job.entry.index == next + n
  }

  /** The state of the loop after `n` bundles. */
  ghost predicate Progressed(p: Progress, files: set<string>, r: Run, next: nat, n: nat)
    requires n <= |r.bundles|
  {
    && (p.failed <==> Leading(r, n) < n)
    && p.files.Keys == files + Names(r, next, Touched(r, n))
    && (!p.failed ==> EntriesFor(p.entries, r, next, n))
  }

  lemma WriteOutcome(files: set<string>, p: Progress, r: Run, next: nat, n: nat, job: Job, q: Progress)
    requires n < |r.bundles| && IsJob(job, r, next, n) && Progressed(p, files, r, next, n) && q == Write(p, job)
    ensures Progressed(q, files, r, next, n + 1)
  {
    TouchedStep(r, n);
    NamesSnoc(r, next, n);
    WriteCases(p, job);
    if !q.failed {
      EntriesForSnoc(p.entries, job.entry, r, next, n);
    }
  }

  lemma WriteCases(p: Progress, job: Job)
    ensures var q := Write(p, job);
      && (q.failed <==> p.failed || job.envelope.None? || !job.saved)
      && q.files.Keys == p.files.Keys +
           (if !p.failed && job.envelope.Some? && (job.saved || job.leftover.Some?) then {job.entry.file} else {})
      && (!q.failed ==> q.entries == p.entries + [job.entry])
  {
  }

  ghost predicate AreJobs(jobs: seq<Job>, r: Run, next: nat) {
    |jobs| == |r.bundles| && forall i :: 0 <= i < |jobs| ==> IsJob(jobs[i], r, next, i)
  }

  lemma JobsAreJobs(r: Run, next: nat, jobs: seq<Job>)
    requires jobs == Jobs(r, next, |r.bundles|)
    ensures AreJobs(jobs, r, next)
  {
    forall i | 0 <= i < |jobs| ensures IsJob(jobs[i], r, next, i) {
      JobAt(r, next, |r.bundles|, i);
    }
  }

  lemma NothingWritten(p: Progress, files: map<string, Envelope>, r: Run, next: nat)
    requires p == Progress(files, [], [], false)
    ensures Progressed(p, files.Keys, r, next, 0)
  {
    assert Names(r, next, 0) == {};
  }

  /** What holds at the start and is kept by every bundle holds after the loop. */
  lemma {:induction false} LoopInvariant(files: map<string, Envelope>, jobs: seq<Job>, n: nat, inv: (Progress, nat) -> bool)
    requires n <= |jobs| && inv(Progress(files, [], [], false), 0)
    requires forall p, i: nat :: i < |jobs| && inv(p, i) ==> inv(Write(p, jobs[i]), i + 1)
    ensures inv(Loop(files, jobs[..n]), n)
  {
    if n > 0 {
      LoopInvariant(files, jobs, n - 1, inv);
      LoopStep(files, jobs, n - 1, Loop(files, jobs[..n - 1]), Loop(files, jobs[..n]));
    }
  }

  /** Which files the loop leaves, and when it fails. */
  lemma LoopOutcome(files: map<string, Envelope>, r: Run, next: nat, jobs: seq<Job>, n: nat)
    requires AreJobs(jobs, r, next) && n == |jobs|
    ensures Progressed(Loop(files, jobs), files.Keys, r, next, n)
  {
    var inv := (p: Progress, i: nat) => i <= |r.bundles| && Progressed(p, files.Keys, r, next, i);
    NothingWritten(Progress(files, [], [], false), files, r, next);
    forall p, i: nat | i < |jobs| && inv(p, i) ensures inv(Write(p, jobs[i]), i + 1) {
      WriteOutcome(files.Keys, p, r, next, i, jobs[i], Write(p, jobs[i]));
    }
    LoopInvariant(files, jobs, n, inv);
    assert jobs[..n] == jobs;
  }

  lemma RunOutcome(files: map<string, Envelope>, r: Run, next: nat, jobs: seq<Job>)
    requires jobs == Jobs(r, next, |r.bundles|)
    ensures var p := Loop(files, jobs);
      && (!p.failed && r.manifestSaved <==> Succeeds(r))
      && p.files.Keys == files.Keys + Names(r, next, Touched(r, |r.bundles|))
      && (!p.failed ==> EntriesFor(p.entries, r, next, |r.bundles|))
  {
    JobsAreJobs(r, next, jobs);
    LoopOutcome(files, r, next, jobs, |r.bundles|);
  }

  // ----- what a successful run leaves -----

  /** Every job so far has been carried out. */
  ghost predicate CarriedOut(p: Progress, jobs: seq<Job>, n: nat) {
    && !p.failed && n <= |jobs| && |p.entries| == |p.written| == n
    && forall i :: 0 <= i < n ==> p.entries[i] == jobs[i].entry && jobs[i].envelope == Some(p.written[i])
  }

  lemma LoopCarriesOut(files: map<string, Envelope>, jobs: seq<Job>)
    requires forall i :: 0 <= i < |jobs| ==> jobs[i].envelope.Some? && jobs[i].saved
    ensures CarriedOut(Loop(files, jobs), jobs, |jobs|)
  {
    var inv := (p: Progress, i: nat) => CarriedOut(p, jobs, i);
    forall p, i: nat | i < |jobs| && inv(p, i) ensures inv(Write(p, jobs[i]), i + 1) {
    }
    LoopInvariant(files, jobs, |jobs|, inv);
    assert jobs[..|jobs|] == jobs;
  }

  /** The file of bundle `i` and its manifest entry, field by field. */
  ghost predicate Records(r: Run, i: nat, number: nat, file: string, content: Envelope, e: Entry)
    requires i < |r.bundles|
  {
    var b := r.bundles[i];
    var step := if b.steps == [] then r.command else b.steps[0];
    && file == Padded(number) + "_" + step + "_" + Lower(b.target) + ".safe.json"
    && content.chainId == r.chainId && content.createdAt == r.createdAt
    && content.name == step && content.description == (if b.steps == [] then [r.command] else b.steps)
    && |content.transactions| == |b.txs| && (forall k :: 0 <= k < |b.txs| ==> Carries(content.transactions[k], b.txs[k]))
    && e.index == number && e.file == file && e.target == Lower(b.target) && e.steps == b.steps && e.txCount == |b.txs|
  }

  /** The directory holds the file that entry `e` lists for bundle `i`. */
  ghost predicate RecordedIn(files: map<string, Envelope>, r: Run, i: nat, number: nat, e: Entry)
    requires i < |r.bundles|
  {
    e.file in files && Records(r, i, number, e.file, files[e.file], e)
  }

  lemma JobRecords(r: Run, next: nat, i: nat, job: Job)
    requires i < |r.bundles| && job == JobOf(r, next, i) && job.envelope.Some?
    ensures Records(r, i, next + i, job.entry.file, job.envelope.value, job.entry)
  {
  }

  lemma AllStored(r: Run, next: nat, jobs: seq<Job>)
    requires Succeeds(r) && jobs == Jobs(r, next, |r.bundles|)
    ensures forall i :: 0 <= i < |jobs| ==> jobs[i].envelope.Some? && jobs[i].saved
  {
    forall i | 0 <= i < |jobs| ensures jobs[i].envelope.Some? && jobs[i].saved {
      JobAt(r, next, |r.bundles|, i);
      assert Stored(r, i);
    }
  }

  lemma Finished(d: Dir, p: Progress, metadata: string, d': Dir)
    requires !p.failed && d' == Finish(d, p, metadata, true)
    ensures Entries(d'.manifest) == Entries(d.manifest) + p.entries && Metadata(d'.manifest) == Metadata(d.manifest) + [metadata]
    ensures d'.written == d.written + p.written
  {
  }

  lemma SucceedsCarriesOut(d: Dir, r: Run, next: nat, jobs: seq<Job>, p: Progress, d': Dir)
    requires Succeeds(r) && jobs == Jobs(r, next, |r.bundles|) && p == Loop(d.files, jobs) && d' == AfterJobs(d, r, jobs)
    ensures CarriedOut(p, jobs, |jobs|)
    ensures Entries(d'.manifest) == Entries(d.manifest) + p.entries && Metadata(d'.manifest) == Metadata(d.manifest) + [r.metadata]
    ensures d'.written == d.written + p.written
  {
    AllStored(r, next, jobs);
    LoopCarriesOut(d.files, jobs);
    Finished(d, p, r.metadata, d');
  }

  lemma FileOfEntry(d: Dir, k: nat)
    requires Valid(d) && k < |Entries(d.manifest)|
    ensures |d.written| == |Entries(d.manifest)|
    ensures Entries(d.manifest)[k].file in d.files && d.files[Entries(d.manifest)[k].file] == d.written[k]
  {
  }

  lemma JobsRecorded(r: Run, next: nat, jobs: seq<Job>, p: Progress, i: nat)
    requires jobs == Jobs(r, next, |r.bundles|) && CarriedOut(p, jobs, |jobs|) && i < |r.bundles|
    ensures Records(r, i, next + i, p.entries[i].file, p.written[i], p.entries[i])
  {
    JobAt(r, next, |r.bundles|, i);
    JobRecords(r, next, i, jobs[i]);
  }

  lemma AppendedAt<T>(before: seq<T>, added: seq<T>, after: seq<T>, i: nat)
    requires after == before + added && i < |added|
    ensures |after| == |before| + |added| && after[..|before|] == before && after[|before| + i] == added[i]
  {
  }

  lemma ProgressRecords(r: Run, next: nat, jobs: seq<Job>, p: Progress, d: Dir, d': Dir, before: seq<Entry>, after: seq<Entry>, i: nat)
    requires jobs == Jobs(r, next, |r.bundles|) && CarriedOut(p, jobs, |jobs|) && i < |r.bundles|
    requires |d.written| == |before| && Valid(d') && after == Entries(d'.manifest)
    requires after == before + p.entries && d'.written == d.written + p.written
    ensures |after| == |before| + |r.bundles| && after[..|before|] == before
    ensures RecordedIn(d'.files, r, i, next + i, after[|before| + i])
  {
    AppendedAt(before, p.entries, after, i);
    FileOfEntry(d', |before| + i);
    AppendedAt(d.written, p.written, d'.written, i);
    JobsRecorded(r, next, jobs, p, i);
  }

  lemma SuccessGives(d: Dir, r: Run, next: nat, jobs: seq<Job>, d': Dir) returns (p: Progress)
    requires Valid(d) && !d.manifest.Malformed? && Succeeds(r) && d' == After(d, r)
    requires next == MaxIndex(Entries(d.manifest)) + 1 && jobs == Jobs(r, next, |r.bundles|)
    ensures CarriedOut(p, jobs, |jobs|) && Valid(d') && |d.written| == |Entries(d.manifest)|
    ensures Entries(d'.manifest) == Entries(d.manifest) + p.entries && Metadata(d'.manifest) == Metadata(d.manifest) + [r.metadata]
    ensures d'.written == d.written + p.written
  {
    p := Loop(d.files, jobs);
    AfterIs(d, r, jobs);
    RunKeeps(d, r);
    SucceedsCarriesOut(d, r, next, jobs, p, d');
  }

  /**
   After a successful run the manifest has one more entry per bundle, in order and numbered on from
   the largest index listed before, and each entry's file holds what the bundle says.
   */
  lemma SuccessRecords(d: Dir, r: Run, d': Dir, before: seq<Entry>, after: seq<Entry>, next: nat, i: nat)
    requires Valid(d) && !d.manifest.Malformed? && Succeeds(r) && i < |r.bundles| && d' == After(d, r)
    requires before == Entries(d.manifest) && after == Entries(d'.manifest) && next == MaxIndex(before) + 1
    ensures |after| == |before| + |r.bundles| && after[..|before|] == before
    ensures Metadata(d'.manifest) == Metadata(d.manifest) + [r.metadata]
    ensures RecordedIn(d'.files, r, i, next + i, after[|before| + i])
  {
    var jobs := Jobs(r, next, |r.bundles|);
    var p := SuccessGives(d, r, next, jobs, d');
    ProgressRecords(r, next, jobs, p, d, d', before, after, i);
  }

  // ----- the command itself -----

  /** The output directory on disk. */
  class OutDir {
    var manifest: Manifest
    var files: map<string, Envelope>
    ghost var written: seq<Envelope>

    ghost function State(): Dir
      reads this
    {
      Dir(manifest, files, written)
    }

    constructor ()
      ensures State() == Dir(Missing, map[], [])
    {
      manifest, files, written := Missing, map[], [];
    }

    /** One round of the loop: the file of bundle `i`. */
    method WriteBundle(r: Run, next: nat, i: nat, ghost start: map<string, Envelope>, ghost jobs: seq<Job>,
                       ghost p: Progress, ghost q: Progress)
      returns (ok: bool, entry: Entry)
      requires i < |r.bundles| && jobs == Jobs(r, next, |r.bundles|) && p.files == files && !p.failed
      requires p == Loop(start, jobs[..i]) && q == Loop(start, jobs[..i + 1])
      modifies this`files
      ensures files == q.files && (ok <==> !q.failed)
      ensures ok ==> q.entries == p.entries + [entry]
    {
      JobAt(r, next, |r.bundles|, i);
      LoopStep(start, jobs, i, p, q);
      entry := EntryOf(r, next, i);
      var safeTxs := SafeTxsFromBundle(r.bundles[i]);
      if safeTxs.None? {
        return false, entry;
      }
      if !r.saves(i) {
        if r.leftover(i).Some? {
          files := files[entry.file := r.leftover(i).value];
        }
        return false, entry;
      }
      files := files[entry.file := Envelope(r.chainId, r.createdAt, FirstStep(r, i), Description(r, i), safeTxs.value)];
      ok := true;
    }

    /** The loop over the bundles. */
    method WriteBundles(r: Run, next: nat, listed: seq<Entry>, ghost jobs: seq<Job>)
      returns (ok: bool, bundleEntries: seq<Entry>)
      requires jobs == Jobs(r, next, |r.bundles|)
      modifies this`files
      ensures files == Loop(old(files), jobs).files && (ok <==> !Loop(old(files), jobs).failed)
      ensures ok ==> bundleEntries == listed + Loop(old(files), jobs).entries
    {
      bundleEntries := listed;
      ghost var p := Progress(files, [], [], false);
      for i := 0 to |r.bundles|
        invariant p == Loop(old(files), jobs[..i]) && p.files == files && !p.failed
        invariant bundleEntries == listed + p.entries
      {
        ghost var q := Loop(old(files), jobs[..i + 1]);
        var wrote, entry := WriteBundle(r, next, i, old(files), jobs, p, q);
        if !wrote {
          LoopEnds(old(files), jobs, i + 1, q);
          return false, bundleEntries;
        }
        bundleEntries := bundleEntries + [entry];
        p := q;
      }
      LoopEnds(old(files), jobs, |jobs|, p);
      ok := true;
    }

    /** The files from number `next` on, then the manifest. */
    method WriteFrom(r: Run, next: nat, ghost jobs: seq<Job>) returns (ok: bool)
      requires jobs == Jobs(r, next, |r.bundles|)
      modifies this
      ensures State() == Finish(old(State()), Loop(old(files), jobs), r.metadata, r.manifestSaved)
      ensures ok <==> !Loop(old(files), jobs).failed && r.manifestSaved
    {
      ghost var p := Loop(files, jobs);
      var bundleEntries;
      ok, bundleEntries := WriteBundles(r, next, Entries(manifest), jobs);
      if !ok {
        return;
      }
      var metadataEntries := Metadata(manifest) + [r.metadata];
      if !r.manifestSaved {
        return false;
      }
      manifest := Present(bundleEntries, metadataEntries);
      written := written + p.written;
    }

    /** Writes one file per bundle, then the manifest; stops at the first error. */
    method WriteSafeBundlesDir(r: Run) returns (ok: bool)
      modifies this
      ensures State() == After(old(State()), r)
      ensures ok <==> !old(manifest).Malformed? && Succeeds(r)
    {
      if manifest.Malformed? {
        return false;
      }
      var next := MaxIndex(Entries(manifest)) + 1;
      ghost var jobs := Jobs(r, next, |r.bundles|);
      AfterIs(State(), r, jobs);
      RunOutcome(files, r, next, jobs);
      ok := WriteFrom(r, next, jobs);
    }
  }

  lemma LoopStep(files: map<string, Envelope>, jobs: seq<Job>, i: nat, p: Progress, q: Progress)
    requires i < |jobs| && p == Loop(files, jobs[..i]) && q == Loop(files, jobs[..i + 1])
    ensures q == Write(p, jobs[i])
  {
    assert jobs[..i + 1][..i] == jobs[..i];
  }

  lemma LoopEnds(files: map<string, Envelope>, jobs: seq<Job>, i: nat, p: Progress)
    requires i <= |jobs| && p == Loop(files, jobs[..i]) && (p.failed || i == |jobs|)
    ensures p == Loop(files, jobs)
  {
    if p.failed {
      LoopFails(files, jobs, i);
    } else {
      assert jobs[..i] == jobs;
    }
  }

  lemma {:induction false} LoopFails(files: map<string, Envelope>, jobs: seq<Job>, i: nat)
    requires i <= |jobs| && Loop(files, jobs[..i]).failed
    ensures Loop(files, jobs) == Loop(files, jobs[..i])
    decreases |jobs|
  {
    if i < |jobs| {
      var init := jobs[..|jobs| - 1];
      assert init[..i] == jobs[..i];
      LoopFails(files, init, i);
    } else {
      assert jobs[..i] == jobs;
    }
  }

  // ----- numbering continues after the manifest, not after the files -----

  /**
   A run that stops after its first file leaves that file unlisted, and the next run numbers from
   the manifest again: two files of the directory then carry the same index.
   */
  lemma OrphanSharesIndex(first: Run, second: Run)
    requires |first.bundles| == 2 && SafeTxs(first.bundles[0].txs).Some? && first.saves(0) && SafeTxs(first.bundles[1].txs).None?
    requires |second.bundles| == 1 && SafeTxs(second.bundles[0].txs).Some? && second.saves(0) && second.manifestSaved
    requires NameOf(first, 1, 0) != NameOf(second, 1, 0)
    ensures var d := After(After(Dir(Missing, map[], []), first), second);
      && Entries(d.manifest) == [EntryOf(second, 1, 0)] && EntryOf(second, 1, 0).index == 1
      && NameOf(first, 1, 0) in d.files && NameOf(second, 1, 0) in d.files
  {
    FirstFileStays(first);
    JobAt(second, 1, 1, 0);
    var d := After(Dir(Missing, map[], []), first);
    LoopOnce(d.files, Jobs(second, 1, 1));
    AfterIs(d, second, Jobs(second, 1, 1));
  }

  /** A run that stops at its second bundle leaves the file of the first, unlisted. */
  lemma FirstFileStays(r: Run)
    requires |r.bundles| == 2 && SafeTxs(r.bundles[0].txs).Some? && r.saves(0) && SafeTxs(r.bundles[1].txs).None?
    ensures After(Dir(Missing, map[], []), r) == Dir(Missing, map[NameOf(r, 1, 0) := EnvelopeOf(r, 0)], [])
  {
    JobAt(r, 1, 2, 0);
    JobAt(r, 1, 2, 1);
    LoopStops(map[], Jobs(r, 1, 2));
    AfterIs(Dir(Missing, map[], []), r, Jobs(r, 1, 2));
  }

  lemma LoopOnce(files: map<string, Envelope>, jobs: seq<Job>)
    requires |jobs| == 1 && jobs[0].envelope.Some? && jobs[0].saved
    ensures var e := jobs[0].envelope.value;
      Loop(files, jobs) == Progress(files[jobs[0].entry.file := e], [jobs[0].entry], [e], false)
  {
    assert jobs[..0] == [];
  }

  lemma LoopStops(files: map<string, Envelope>, jobs: seq<Job>)
    requires |jobs| == 2 && jobs[0].envelope.Some? && jobs[0].saved && jobs[1].envelope.None?
    ensures var p := Loop(files, jobs); p.failed && p.files == files[jobs[0].entry.file := jobs[0].envelope.value]
  {
    LoopOnce(files, jobs[..1]);
  }
}
