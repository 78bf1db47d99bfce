/**
 * The single-slot upload widget of dnd/dndUpload.js as state transitions: the
 * Dropzone file list `this.files`, the global `shouldLoad`, the text of the
 * flags `#check-can-pull` and `#check-can-pull1`, the content of
 * `#image-data-holder1`, whether the `.txtMsg` warning is shown, and the
 * FileReader reads that have been started but have not finished yet.
 */
module DndRules {
  import opened JsText

  /** The handler's size test `size / 1024 / 1024 > 5`, in bytes: the divisions
      are by powers of two, so the test is exact. */
  const MaxFileSize: nat := 5 * 1024 * 1024

  /** A Dropzone file: `id` stands for the identity of the JavaScript object,
      `accepted` for the flag Dropzone sets after its own checks, and `dataUrl`
      for what a FileReader produces from it. */
  datatype File = File(id: nat, mimeType: string, size: nat, accepted: bool, dataUrl: string)

  datatype State = State(
    files: seq<File>,
    shouldLoad: bool,
    canPull: string,
    canPull1: string,
    holder: string,
    warningShown: bool,
    pendingReads: seq<string>)

  /** `file.type.match('image.*')`: the pattern is unanchored, so this is a
      search for `image` anywhere in the type. */
  predicate IsImage(f: File) {
    Contains(f.mimeType, "image")
  }

  predicate Oversize(f: File) {
    f.size > MaxFileSize
  }

  /** The list without the given file, as `removeFile` leaves `this.files`. */
  function Without(fs: seq<File>, f: File): seq<File> {
    if fs == [] then []
    else if fs[0].id == f.id then Without(fs[1..], f)
    else [fs[0]] + Without(fs[1..], f)
  }

  /** The remaining entries are entries of the list, none with the removed
      file's id, every other entry remains, and a list without that id is left
      as it is. */
  lemma WithoutFilters(fs: seq<File>, f: File)
    ensures var r := Without(fs, f);
      && |r| <= |fs|
      && (forall i :: 0 <= i < |r| ==> r[i] in fs && r[i].id != f.id)
      && (forall x :: x in fs && x.id != f.id ==> x in r)
      && ((forall x :: x in fs ==> x.id != f.id) ==> r == fs)
  {
    WithoutEntries(fs, f);
    WithoutKeepsOthers(fs, f);
    if forall x :: x in fs ==> x.id != f.id {
      WithoutNoMatch(fs, f);
    }
  }

  lemma {:induction false} WithoutEntries(fs: seq<File>, f: File)
    ensures |Without(fs, f)| <= |fs|
    ensures forall x :: x in Without(fs, f) ==> x in fs && x.id != f.id
    decreases |fs|
  {
    if fs != [] {
      WithoutEntries(fs[1..], f);
    }
  }

  lemma {:induction false} WithoutKeepsOthers(fs: seq<File>, f: File)
    ensures forall x :: x in fs && x.id != f.id ==> x in Without(fs, f)
    decreases |fs|
  {
    if fs != [] {
      WithoutKeepsOthers(fs[1..], f);
      assert forall x :: x in fs ==> x == fs[0] || x in fs[1..];
    }
  }

  lemma {:induction false} WithoutNoMatch(fs: seq<File>, f: File)
    requires forall x :: x in fs ==> x.id != f.id
    ensures Without(fs, f) == fs
    decreases |fs|
  {
    if fs != [] {
      assert fs[0] in fs;
      WithoutNoMatch(fs[1..], f);
      assert fs == [fs[0]] + fs[1..];
    }
  }

  /** One step of the filter: the first file is kept unless it has the id. */
  lemma WithoutStep(fs: seq<File>, f: File)
    requires fs != []
    ensures Without(fs, f) == (if fs[0].id == f.id then [] else [fs[0]]) + Without(fs[1..], f)
  {
  }

  function RemoveFile(st: State, f: File): State {
    st.(files := Without(st.files, f))
  }

  /** Dropzone appends the new file to `this.files`; the handler then sets `shouldLoad`. */
  function Push(st: State, f: File): State {
    st.(files := st.files + [f], shouldLoad := true)
  }

  /** A second file evicts the first, and `#check-can-pull` becomes `"yes"`. */
  function Evict(st: State): State {
    if |st.files| > 1 then RemoveFile(st, st.files[0]).(canPull := "yes") else st
  }

  function DropSecondNonImage(st: State): State {
    if |st.files| > 1 && !IsImage(st.files[1]) then RemoveFile(st, st.files[1]).(shouldLoad := false) else st
  }

  function DropFirstNonImage(st: State): State {
    if |st.files| > 0 && !IsImage(st.files[0])
    then RemoveFile(st, st.files[0]).(shouldLoad := false, canPull1 := "no")
    else st
  }

  function DropSecondOversize(st: State): State {
    if |st.files| > 1 && Oversize(st.files[1]) then RemoveFile(st, st.files[1]).(shouldLoad := false) else st
  }

  function DropFirstOversize(st: State): State {
    if |st.files| > 0 && Oversize(st.files[0])
    then RemoveFile(st, st.files[0]).(shouldLoad := false, canPull := "no")
    else st
  }

  /** `fr.readAsDataURL(f)`: a read of the added file is started. */
  function StartRead(st: State, f: File): State {
    st.(pendingReads := st.pendingReads + [f.dataUrl])
  }

  /** The `addedfile` handler, which Dropzone calls after appending `f` to
      `this.files`: each test reads the list as the previous one left it. */
  function AddFile(st: State, f: File): State {
    StartRead(DropFirstOversize(DropSecondOversize(DropFirstNonImage(DropSecondNonImage(Evict(Push(st, f)))))), f)
  }

  /** The `error` handler. */
  function OnError(st: State, f: File): State {
    var s0 := if !f.accepted then st.(shouldLoad := false, warningShown := true) else st;
    RemoveFile(s0.(canPull := "no"), f).(warningShown := true)
  }

  /** The `onload` callback of read `k`: it reads `shouldLoad` as it is when the
      read finishes, not as it was when the read started. */
  function OnReadComplete(st: State, k: nat): State
    requires k < |st.pendingReads|
  {
    var s0 := st.(pendingReads := st.pendingReads[..k] + st.pendingReads[k + 1..]);
    if st.shouldLoad then s0.(holder := st.pendingReads[k], canPull := "yes", warningShown := false) else s0
  }

  /** What the `complete` callback returns: `false`, or nothing. */
  datatype Completion = ReturnsFalse | ReturnsNothing

  function Complete(f: File): Completion {
    if !IsImage(f) then ReturnsFalse
    else if Oversize(f) then ReturnsFalse
    else ReturnsNothing
  }

  /** The slot invariant: at most one file is held. */
  predicate SingleSlot(st: State) {
    |st.files| <= 1
  }

  /** `f` is a new object, not one the list already holds. */
  predicate Fresh(st: State, f: File) {
    forall x :: x in st.files ==> x.id != f.id
  }

  /** The file is admitted: an image of at most 5 MiB. */
  predicate Admissible(f: File) {
    IsImage(f) && !Oversize(f)
  }

  lemma WithoutSingle(f: File, g: File)
    ensures Without([g], f) == if g.id == f.id then [] else [g]
  {
    assert [g][1..] == [];
  }

  /** After the push and the eviction of the older file, the list is `[f]`. */
  lemma EvictionStep(st: State, f: File)
    requires SingleSlot(st) && Fresh(st, f)
    ensures var s1 := Evict(Push(st, f));
      && s1.files == [f] && s1.shouldLoad
      && s1.canPull == (if |st.files| == 1 then "yes" else st.canPull)
      && s1.canPull1 == st.canPull1 && s1.holder == st.holder
      && s1.warningShown == st.warningShown && s1.pendingReads == st.pendingReads
  {
    if |st.files| == 1 {
      var g := st.files[0];
      assert st.files + [f] == [g, f];
      assert [g, f][1..] == [f];
      WithoutSingle(g, f);
    }
  }

  /** The `addedfile` handler keeps the single slot: the older file is evicted,
      the new one stays exactly when it is an image of at most 5 MiB, and
      `shouldLoad` ends true exactly then. `#check-can-pull` is `"no"` after an
      oversized image, `"yes"` after any replacement otherwise, and untouched
      else; `#check-can-pull1` is `"no"` after a non-image. A read of `f` is
      started in every case. */
  lemma AddFileSingleSlot(st: State, f: File)
    requires SingleSlot(st) && Fresh(st, f)
    ensures var r := AddFile(st, f);
      && SingleSlot(r)
      && r.files == (if Admissible(f) then [f] else [])
      && (r.shouldLoad <==> Admissible(f))
      && r.canPull == (if IsImage(f) && Oversize(f) then "no" else if |st.files| == 1 then "yes" else st.canPull)
      && r.canPull1 == (if !IsImage(f) then "no" else st.canPull1)
      && r.holder == st.holder && r.warningShown == st.warningShown
      && r.pendingReads == st.pendingReads + [f.dataUrl]
  {
    EvictionStep(st, f);
    WithoutSingle(f, f);
  }

  /** The file list is left holding the new file exactly when `shouldLoad` is set. */
  lemma ShouldLoadIffHeld(st: State, f: File)
    requires SingleSlot(st) && Fresh(st, f)
    ensures AddFile(st, f).shouldLoad <==> AddFile(st, f).files == [f]
  {
    AddFileSingleSlot(st, f);
  }

  /** Replacing a held file by a non-image leaves `#check-can-pull` at the
      `"yes"` the eviction wrote, although no file is held any more: only
      `#check-can-pull1` records the rejection. */
  lemma ReplacementByNonImageLeavesYes(st: State, f: File)
    requires |st.files| == 1 && Fresh(st, f) && !IsImage(f)
    ensures var r := AddFile(st, f);
      r.files == [] && !r.shouldLoad && r.canPull == "yes" && r.canPull1 == "no"
  {
    AddFileSingleSlot(st, f);
  }

  /** A file of exactly 5 MiB is kept; one byte more is refused. */
  lemma SizeBoundary(st: State, f: File)
    requires SingleSlot(st) && Fresh(st, f) && IsImage(f)
    ensures f.size == MaxFileSize ==> AddFile(st, f).files == [f]
    ensures f.size == MaxFileSize + 1 ==> AddFile(st, f).files == [] && AddFile(st, f).canPull == "no"
  {
    AddFileSingleSlot(st, f);
  }

  /** The `error` handler always writes `"no"`, drops the file and shows the
      warning; it clears `shouldLoad` only for a file Dropzone did not accept. */
  lemma ErrorEffect(st: State, f: File)
    ensures var r := OnError(st, f);
      && r.canPull == "no" && r.warningShown
      && (forall x :: x in r.files ==> x in st.files && x.id != f.id)
      && (forall x :: x in st.files && x.id != f.id ==> x in r.files)
      && r.shouldLoad == (st.shouldLoad && f.accepted)
      && r.canPull1 == st.canPull1 && r.holder == st.holder && r.pendingReads == st.pendingReads
  {
    WithoutFilters(st.files, f);
  }

  /** The read of an admitted file, finishing before anything else happens,
      writes its data to the holder, sets `#check-can-pull` to `"yes"` and hides
      the warning; the read of a refused file changes nothing but the pending
      reads. */
  lemma AddThenRead(st: State, f: File)
    requires SingleSlot(st) && Fresh(st, f)
    ensures var s := AddFile(st, f); var k := |st.pendingReads|;
      && k < |s.pendingReads|
      && var r := OnReadComplete(s, k);
      && r.pendingReads == st.pendingReads
      && (Admissible(f) ==> r.holder == f.dataUrl && r.canPull == "yes" && !r.warningShown && r.files == [f])
      && (!Admissible(f) ==> r.holder == st.holder && r.files == [] && r.canPull == s.canPull)
  {
    AddFileSingleSlot(st, f);
    var s := AddFile(st, f);
    var k := |st.pendingReads|;
    assert s.pendingReads[k] == f.dataUrl;
    assert s.pendingReads[..k] == st.pendingReads;
    assert s.pendingReads[k + 1..] == [];
  }

  /** An error on an accepted file leaves `shouldLoad` set, so a read still in
      flight then writes its data and `"yes"` although the file was removed. */
  lemma AcceptedErrorThenRead(st: State, f: File)
    requires SingleSlot(st) && Fresh(st, f) && Admissible(f) && f.accepted
    ensures var s := OnError(AddFile(st, f), f); var k := |st.pendingReads|;
      && k < |s.pendingReads|
      && var r := OnReadComplete(s, k);
      && r.files == [] && r.holder == f.dataUrl && r.canPull == "yes"
  {
    AddFileSingleSlot(st, f);
    WithoutSingle(f, f);
    var s := OnError(AddFile(st, f), f);
    assert s.pendingReads[|st.pendingReads|] == f.dataUrl;
  }

  /** Every handler keeps the single slot. */
  lemma SingleSlotPreserved(st: State, f: File, k: nat)
    requires SingleSlot(st)
    ensures Fresh(st, f) ==> SingleSlot(AddFile(st, f))
    ensures SingleSlot(OnError(st, f))
    ensures k < |st.pendingReads| ==> SingleSlot(OnReadComplete(st, k))
  {
    if Fresh(st, f) {
      AddFileSingleSlot(st, f);
    }
    WithoutEntries(st.files, f);
  }

  /** `complete` returns false exactly for the files the `addedfile` handler
      refuses. */
  lemma CompleteAgreesWithAdmission(st: State, f: File)
    requires SingleSlot(st) && Fresh(st, f)
    ensures Complete(f) == ReturnsFalse <==> !AddFile(st, f).shouldLoad
  {
    AddFileSingleSlot(st, f);
  }
}
