/** The payload loops of rk35xx-update (staged, on a running box) and build-image.sh (direct). */
module StagedInstall {
  import opened DeviceTree

  datatype File = File(mode: string, content: string)

  /** A line of payload.list: comments and blank lines are gone, and the source has been read. */
  datatype Entry = Entry(mode: string, content: string, dest: string)

  type Files = map<string, File>

  const STAGE_SUFFIX := ".rk35xx-new"

  /** `$(dirname "$dest")/.$(basename "$dest").rk35xx-new` */
  function Stage(dest: string): string {
    Parent(dest) + "/." + BaseName(dest) + STAGE_SUFFIX
  }

  /** One turn of the loop: what is installed, the name it is staged under and the name it ends at. */
  datatype Step = Step(file: File, stage: string, dest: string)

  function StepOf(e: Entry): Step {
    Step(File(e.mode, e.content), Stage(e.dest), e.dest)
  }

  function Steps(entries: seq<Entry>): seq<Step> {
    seq(|entries|, i requires 0 <= i < |entries| => StepOf(entries[i]))
  }

  function Staged(files: Files, s: Step): Files {
    files[s.stage := s.file]
  }

  function Renamed(files: Files, s: Step): Files
    requires s.stage in files
  {
    var f := files[s.stage];
    (files - {s.stage})[s.dest := f]
  }

  /** A whole step. */
  function Turn(files: Files, s: Step): Files {
    Renamed(Staged(files, s), s)
  }

  /** The files after the first `n` steps, each by way of its staging name. */
  function ViaStaging(files: Files, steps: seq<Step>, n: nat): Files
    requires n <= |steps|
  {
    if n == 0 then files else Turn(ViaStaging(files, steps, n - 1), steps[n - 1])
  }

  function Copied(files: Files, s: Step): Files {
    files[s.dest := s.file]
  }

  /** The files after the first `n` steps, each copied to where it goes. */
  function Direct(files: Files, steps: seq<Step>, n: nat): Files
    requires n <= |steps|
  {
    if n == 0 then files else Copied(Direct(files, steps, n - 1), steps[n - 1])
  }

  // ---- what a payload list asks for ----------------------------------------------------------------

  /** No later entry has the same destination. */
  ghost predicate IsLast(entries: seq<Entry>, i: nat) {
    i < |entries| && forall j | i < j < |entries| :: entries[j].dest != entries[i].dest
  }

  /** The entry's destination has its mode and its content. */
  ghost predicate FileAt(after: Files, e: Entry) {
    e.dest in after && after[e.dest].mode == e.mode && after[e.dest].content == e.content
  }

  ghost predicate SameAt(before: Files, after: Files, path: string) {
    (path in after <==> path in before) && (path in after ==> after[path] == before[path])
  }

  /** Every destination has the mode and the content of the last entry for it; every other path is as before. */
  ghost predicate Installed(before: Files, after: Files, entries: seq<Entry>) {
    && (forall i: nat | IsLast(entries, i) :: FileAt(after, entries[i]))
    && forall path | forall e | e in entries :: e.dest != path :: SameAt(before, after, path)
  }

  class Rootfs {
    var files: Files

    /** `install -D -m mode src dest` */
    method Install(file: File, dest: string)
      modifies this
      ensures files == old(files)[dest := file]
    {
      files := files[dest := file];
    }

    /** `mv -f` */
    method Move(from: string, to: string)
      requires from in files
      modifies this
      ensures files == (old(files) - {from})[to := old(files)[from]]
    {
      var f := files[from];
      files := (files - {from})[to := f];
    }

    /** One turn of rk35xx-update's loop. */
    method InstallOne(s: Step)
      modifies this
      ensures files == Turn(old(files), s)
    {
      Install(s.file, s.stage);
      Move(s.stage, s.dest);
    }

    /** rk35xx-update's loop */
    method InstallStaged(steps: seq<Step>)
      modifies this
      ensures files == ViaStaging(old(files), steps, |steps|)
    {
      for i := 0 to |steps|
        invariant files == ViaStaging(old(files), steps, i)
      {
        InstallOne(steps[i]);
      }
    }

    /** build-image.sh's loop */
    method InstallDirect(steps: seq<Step>)
      modifies this
      ensures files == Direct(old(files), steps, |steps|)
    {
      for i := 0 to |steps|
        invariant files == Direct(old(files), steps, i)
      {
        Install(steps[i].file, steps[i].dest);
      }
    }

    /** rk35xx-update over its payload list. */
    method UpdatePayload(entries: seq<Entry>)
      modifies this
      ensures PlainNames(entries) ==> Installed(old(files) - StagesOf(entries), files, entries)
      ensures files == ViaStaging(old(files), Steps(entries), |entries|)
    {
      ghost var before := files;
      InstallStaged(Steps(entries));
      if PlainNames(entries) {
        StagedInstalls(before, entries);
      }
    }

    /** build-image.sh over its payload list. */
    method ImagePayload(entries: seq<Entry>)
      modifies this
      ensures Installed(old(files), files, entries)
      ensures files == Direct(old(files), Steps(entries), |entries|)
    {
      DirectInstalls(files, entries);
      InstallDirect(Steps(entries));
    }
  }

  function StageNames(steps: seq<Step>): set<string> {
    set s | s in steps :: s.stage
  }

  /** No entry is installed under the staging name of another. */
  ghost predicate Apart(steps: seq<Step>) {
    forall s | s in steps :: s.dest !in StageNames(steps)
  }

  /** The same files, the staging names aside. */
  ghost predicate SameBut(a: Files, b: Files, stages: set<string>) {
    forall k | k !in stages :: (k in a <==> k in b) && (k in a ==> a[k] == b[k])
  }

  lemma RenameShows(a: Files, b: Files, s: Step, stages: set<string>)
    requires s.stage in stages && s.dest !in stages && SameBut(a, b, stages)
    ensures SameBut(Turn(a, s), Copied(b, s), stages)
  {
  }

  lemma StageHides(a: Files, b: Files, stage: string, partial: File, stages: set<string>)
    requires stage in stages && SameBut(a, b, stages)
    ensures SameBut(a[stage := partial], b, stages)
  {
  }

  lemma StepApart(steps: seq<Step>, i: nat)
    requires Apart(steps) && i < |steps|
    ensures steps[i].stage in StageNames(steps) && steps[i].dest !in StageNames(steps)
  {
    assert steps[i] in steps;
  }

  /**
   At every point of the staged loop, between two entries or with any part of a file under its staging
   name, each file that is not a staging name is what the direct loop has after some number of whole
   steps: a destination is wholly old or wholly new.
   */
  lemma {:induction false} StagedShowsDirect(files: Files, steps: seq<Step>, n: nat, partial: File)
    requires Apart(steps) && n <= |steps|
    ensures SameBut(ViaStaging(files, steps, n), Direct(files, steps, n), StageNames(steps))
    ensures n < |steps| ==>
              SameBut(ViaStaging(files, steps, n)[steps[n].stage := partial], Direct(files, steps, n), StageNames(steps))
    decreases n
  {
    var stages := StageNames(steps);
    if n > 0 {
      StagedShowsDirect(files, steps, n - 1, partial);
      StepApart(steps, n - 1);
      RenameShows(ViaStaging(files, steps, n - 1), Direct(files, steps, n - 1), steps[n - 1], stages);
    }
    if n < |steps| {
      StepApart(steps, n);
      StageHides(ViaStaging(files, steps, n), Direct(files, steps, n), steps[n].stage, partial, stages);
    }
  }

  lemma RenameClears(files: Files, s: Step, name: string, stages: set<string>)
    requires name in stages && s.dest !in stages && (name == s.stage || name !in files)
    ensures name !in Turn(files, s)
  {
  }

  /** Nothing is left under a staging name the loop has used. */
  lemma {:induction false} StagesGone(files: Files, steps: seq<Step>, n: nat, i: nat)
    requires Apart(steps) && i < n <= |steps|
    ensures steps[i].stage !in ViaStaging(files, steps, n)
    decreases n
  {
    StepApart(steps, i);
    StepApart(steps, n - 1);
    if i < n - 1 {
      StagesGone(files, steps, n - 1, i);
    }
    RenameClears(ViaStaging(files, steps, n - 1), steps[n - 1], steps[i].stage, StageNames(steps));
  }

  /** The staged install ends as the direct one, on files with no staging name among them. */
  lemma StagedIsDirect(files: Files, steps: seq<Step>)
    requires Apart(steps) && files.Keys !! StageNames(steps)
    ensures ViaStaging(files, steps, |steps|) == Direct(files, steps, |steps|)
  {
    var stages := StageNames(steps);
    StagedShowsDirect(files, steps, |steps|, File("", ""));
    forall s | s in stages
      ensures s !in ViaStaging(files, steps, |steps|) && s !in Direct(files, steps, |steps|)
    {
      var i :| 0 <= i < |steps| && steps[i].stage == s;
      StagesGone(files, steps, |steps|, i);
      DirectKeys(files, steps, |steps|, s);
    }
    SameEverywhere(ViaStaging(files, steps, |steps|), Direct(files, steps, |steps|), stages);
  }

  lemma SameEverywhere(a: Files, b: Files, stages: set<string>)
    requires SameBut(a, b, stages) && forall s | s in stages :: s !in a && s !in b
    ensures a == b
  {
    assert forall k :: k in a <==> k in b;
  }

  lemma {:induction false} DirectKeys(files: Files, steps: seq<Step>, n: nat, s: string)
    requires Apart(steps) && n <= |steps| && s in StageNames(steps) && s !in files
    ensures s !in Direct(files, steps, n)
    decreases n
  {
    if n > 0 {
      StepApart(steps, n - 1);
      DirectKeys(files, steps, n - 1, s);
    }
  }

  // ---- payload lists ------------------------------------------------------------------------------

  /** No destination is named like a staging file. */
  ghost predicate PlainNames(entries: seq<Entry>) {
    forall e | e in entries :: !HasSuffix(BaseName(e.dest), STAGE_SUFFIX)
  }

  /** The names the entries are staged under: files an interrupted run may have left. */
  ghost function StagesOf(entries: seq<Entry>): set<string> {
    set e | e in entries :: Stage(e.dest)
  }

  predicate HasSuffix(s: string, suffix: string) {
    |suffix| <= |s| && s[|s| - |suffix|..] == suffix
  }

  lemma StageBase(dest: string)
    ensures HasSuffix(BaseName(Stage(dest)), STAGE_SUFFIX)
  {
    var name := "." + BaseName(dest) + STAGE_SUFFIX;
    assert '/' !in BaseName(dest) && '/' !in STAGE_SUFFIX;
    assert Stage(dest) == Child(Parent(dest), name);
    ChildParts(Parent(dest), name);
  }

  lemma StageIsNoDest(d: string, dest: string)
    requires !HasSuffix(BaseName(dest), STAGE_SUFFIX)
    ensures Stage(d) != dest
  {
    StageBase(d);
  }

  lemma StepsApart(entries: seq<Entry>, i: nat, j: nat)
    requires PlainNames(entries) && i < |entries| && j < |entries|
    ensures Steps(entries)[j].dest != Steps(entries)[i].stage
  {
    assert entries[j] in entries;
    StageIsNoDest(entries[i].dest, entries[j].dest);
  }

  lemma ApartByIndex(steps: seq<Step>)
    requires forall i, j | 0 <= i < |steps| && 0 <= j < |steps| :: steps[j].dest != steps[i].stage
    ensures Apart(steps)
  {
  }

  lemma PayloadApart(entries: seq<Entry>)
    requires PlainNames(entries)
    ensures Apart(Steps(entries))
  {
    forall i, j | 0 <= i < |entries| && 0 <= j < |entries| ensures Steps(entries)[j].dest != Steps(entries)[i].stage {
      StepsApart(entries, i, j);
    }
    ApartByIndex(Steps(entries));
  }

  /**
   The two scripts over one payload list: as long as no destination is named like a staging file, and no
   file is one, they leave the same files behind.
   */
  lemma PayloadsAgree(files: Files, entries: seq<Entry>)
    requires PlainNames(entries) && files.Keys !! StageNames(Steps(entries))
    ensures ViaStaging(files, Steps(entries), |entries|) == Direct(files, Steps(entries), |entries|)
  {
    PayloadApart(entries);
    StagedIsDirect(files, Steps(entries));
  }

  // ---- both loops install what the list asks for ---------------------------------------------------

  /** The same of steps. */
  ghost predicate LastStep(steps: seq<Step>, n: nat, i: nat)
    requires n <= |steps|
  {
    i < n && forall j | i < j < n :: steps[j].dest != steps[i].dest
  }

  /** A destination named in the list has its last entry's file. */
  lemma {:induction false} LastCopied(files: Files, steps: seq<Step>, n: nat, i: nat)
    requires n <= |steps| && LastStep(steps, n, i)
    ensures steps[i].dest in Direct(files, steps, n) && Direct(files, steps, n)[steps[i].dest] == steps[i].file
    decreases n
  {
    if i < n - 1 {
      assert steps[n - 1].dest != steps[i].dest;
      LastCopied(files, steps, n - 1, i);
    }
  }

  /** And a path that is not is as it was. */
  lemma {:induction false} OtherKept(files: Files, steps: seq<Step>, n: nat, path: string)
    requires n <= |steps| && forall i | 0 <= i < n :: steps[i].dest != path
    ensures SameAt(files, Direct(files, steps, n), path)
    decreases n
  {
    if n > 0 {
      OtherKept(files, steps, n - 1, path);
    }
  }

  lemma StepFields(entries: seq<Entry>, i: nat)
    requires i < |entries|
    ensures var s := Steps(entries)[i];
            s.dest == entries[i].dest && s.file.mode == entries[i].mode && s.file.content == entries[i].content
  {
  }

  /** The copying loop installs what its list asks for. */
  lemma DirectInstalls(files: Files, entries: seq<Entry>)
    ensures Installed(files, Direct(files, Steps(entries), |entries|), entries)
  {
    forall i: nat | IsLast(entries, i)
      ensures FileAt(Direct(files, Steps(entries), |entries|), entries[i])
    {
      EntryCopied(files, entries, i);
    }
    forall path | forall e | e in entries :: e.dest != path
      ensures SameAt(files, Direct(files, Steps(entries), |entries|), path)
    {
      PathKept(files, entries, path);
    }
  }

  lemma EntryCopied(files: Files, entries: seq<Entry>, i: nat)
    requires IsLast(entries, i)
    ensures FileAt(Direct(files, Steps(entries), |entries|), entries[i])
  {
    StepFields(entries, i);
    forall j | i < j < |entries| ensures Steps(entries)[j].dest != Steps(entries)[i].dest {
      StepFields(entries, j);
    }
    LastCopied(files, Steps(entries), |entries|, i);
  }

  lemma PathKept(files: Files, entries: seq<Entry>, path: string)
    requires forall e | e in entries :: e.dest != path
    ensures SameAt(files, Direct(files, Steps(entries), |entries|), path)
  {
    forall i | 0 <= i < |entries| ensures Steps(entries)[i].dest != path {
      StepFields(entries, i);
      assert entries[i] in entries;
    }
    OtherKept(files, Steps(entries), |entries|, path);
  }

  lemma StageField(entries: seq<Entry>, i: nat)
    requires i < |entries|
    ensures Steps(entries)[i].stage == Stage(entries[i].dest)
  {
  }

  lemma StagesAre(entries: seq<Entry>)
    ensures StageNames(Steps(entries)) == StagesOf(entries)
  {
    forall s | s in StageNames(Steps(entries)) ensures s in StagesOf(entries) {
      var i :| 0 <= i < |entries| && Steps(entries)[i].stage == s;
      StageField(entries, i);
      assert entries[i] in entries;
    }
    forall s | s in StagesOf(entries) ensures s in StageNames(Steps(entries)) {
      var i :| 0 <= i < |entries| && Stage(entries[i].dest) == s;
      StageField(entries, i);
      assert Steps(entries)[i] in Steps(entries);
    }
  }

  lemma StageGone(files: Files, entries: seq<Entry>, path: string)
    requires PlainNames(entries) && path in StageNames(Steps(entries))
    ensures path !in ViaStaging(files, Steps(entries), |entries|)
  {
    PayloadApart(entries);
    var i :| 0 <= i < |entries| && Steps(entries)[i].stage == path;
    StagesGone(files, Steps(entries), |entries|, i);
  }

  /** What is true of the files the loop has at the end, told from those the copying loop has. */
  lemma InstalledBut(files: Files, direct: Files, staged: Files, entries: seq<Entry>, stages: set<string>)
    requires Installed(files, direct, entries) && SameBut(staged, direct, stages)
    requires forall e | e in entries :: e.dest !in stages
    requires forall s | s in stages :: s !in staged
    ensures Installed(files - stages, staged, entries)
  {
    forall i: nat | IsLast(entries, i) ensures FileAt(staged, entries[i]) {
      assert FileAt(direct, entries[i]) && entries[i].dest !in stages;
    }
    forall path | forall e | e in entries :: e.dest != path ensures SameAt(files - stages, staged, path) {
      assert SameAt(files, direct, path);
    }
  }

  /** And so does the staged one, which also clears away what an interrupted run left. */
  lemma StagedInstalls(files: Files, entries: seq<Entry>)
    requires PlainNames(entries)
    ensures Installed(files - StagesOf(entries), ViaStaging(files, Steps(entries), |entries|), entries)
  {
    var steps := Steps(entries);
    PayloadApart(entries);
    StagesAre(entries);
    DirectInstalls(files, entries);
    StagedShowsDirect(files, steps, |steps|, File("", ""));
    forall s | s in StageNames(steps) ensures s !in ViaStaging(files, steps, |steps|) {
      StageGone(files, entries, s);
    }
    forall e | e in entries ensures e.dest !in StageNames(steps) {
      DestIsNoStage(entries, e);
    }
    InstalledBut(files, Direct(files, steps, |steps|), ViaStaging(files, steps, |steps|), entries, StageNames(steps));
  }

  lemma DestIsNoStage(entries: seq<Entry>, e: Entry)
    requires PlainNames(entries) && e in entries
    ensures e.dest !in StageNames(Steps(entries))
  {
    PayloadApart(entries);
    var i :| 0 <= i < |entries| && entries[i] == e;
    StepFields(entries, i);
    assert Steps(entries)[i] in Steps(entries);
  }

  /** The name a file is staged under: a dot before its own, the suffix behind, in the same directory. */
  lemma StageName(dir: string, name: string)
    requires '/' !in name
    ensures Stage(dir + "/" + name) == dir + "/" + "." + name + ".rk35xx-new"
  {
    assert dir + "/" + name == Child(dir, name);
    ChildParts(dir, name);
  }
}
