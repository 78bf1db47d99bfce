/**
 * dnd/dndUpload.js as the handlers run: the Dropzone file list, the global
 * `shouldLoad` and the page flags are the fields of an `UploadWidget`, and each
 * handler is a method that updates them in the order the script does. Each
 * method is tied to its transition in DndRules, where the properties are proved.
 */
module DndUpload {
  import opened JsText
  import D = DndRules

  class UploadWidget {
    var files: seq<D.File>
    var shouldLoad: bool
    var canPull: string
    var canPull1: string
    var holder: string
    var warningShown: bool
    var pendingReads: seq<string>

    function Snapshot(): D.State
      reads this
    {
      D.State(files, shouldLoad, canPull, canPull1, holder, warningShown, pendingReads)
    }

    /** The widget as the page loads it; the initial texts of the page's flags
        are not part of the script and are taken as empty. */
    constructor ()
      ensures Snapshot() == D.State([], false, "", "", "", false, [])
    {
      files := [];
      shouldLoad := false;
      canPull := "";
      canPull1 := "";
      holder := "";
      warningShown := false;
      pendingReads := [];
    }

    /** `this.removeFile(f)`, as far as the file list goes. */
    method RemoveFile(f: D.File)
      modifies this
      ensures Snapshot() == D.RemoveFile(old(Snapshot()), f)
    {
      var fs := files;
      var kept: seq<D.File> := [];
      var i := 0;
      while i < |fs|
        invariant 0 <= i <= |fs|
        invariant Snapshot() == old(Snapshot()) && fs == files
        invariant D.Without(fs, f) == kept + D.Without(fs[i..], f)
      {
        D.WithoutStep(fs[i..], f);
        assert fs[i..][1..] == fs[i + 1..];
        if fs[i].id != f.id {
          kept := kept + [fs[i]];
        }
        i := i + 1;
      }
      assert fs[i..] == [];
      assert D.Without(fs, f) == kept + [];
      files := kept;
    }

    method Evict()
      modifies this
      ensures Snapshot() == D.Evict(old(Snapshot()))
    {
      if |files| > 1 {
        RemoveFile(files[0]);
        canPull := "yes";
      }
    }

    method DropSecondNonImage()
      modifies this
      ensures Snapshot() == D.DropSecondNonImage(old(Snapshot()))
    {
      if |files| > 1 && !D.IsImage(files[1]) {
        shouldLoad := false;
        RemoveFile(files[1]);
      }
    }

    method DropFirstNonImage()
      modifies this
      ensures Snapshot() == D.DropFirstNonImage(old(Snapshot()))
    {
      if |files| > 0 && !D.IsImage(files[0]) {
        shouldLoad := false;
        RemoveFile(files[0]);
        canPull1 := "no";
      }
    }

    method DropSecondOversize()
      modifies this
      ensures Snapshot() == D.DropSecondOversize(old(Snapshot()))
    {
      if |files| > 1 && D.Oversize(files[1]) {
        shouldLoad := false;
        RemoveFile(files[1]);
      }
    }

    method DropFirstOversize()
      modifies this
      ensures Snapshot() == D.DropFirstOversize(old(Snapshot()))
    {
      if |files| > 0 && D.Oversize(files[0]) {
        shouldLoad := false;
        RemoveFile(files[0]);
        canPull := "no";
      }
    }

    /** Dropzone appends `f` to the list and calls the `addedfile` handler,
        whose tests run in this order. */
    method AddFile(f: D.File)
      modifies this
      ensures Snapshot() == D.AddFile(old(Snapshot()), f)
    {
      files := files + [f];
      shouldLoad := true;
      Evict();
      DropSecondNonImage();
      DropFirstNonImage();
      DropSecondOversize();
      DropFirstOversize();
      pendingReads := pendingReads + [f.dataUrl];
    }

    /** The `error` handler. */
    method OnError(f: D.File)
      modifies this
      ensures Snapshot() == D.OnError(old(Snapshot()), f)
    {
      if !f.accepted {
        shouldLoad := false;
        warningShown := true;
      }
      canPull := "no";
      RemoveFile(f);
      warningShown := true;
    }

    /** The FileReader `onload` callback of the pending read `k`. */
    method OnReadComplete(k: nat)
      requires k < |pendingReads|
      modifies this
      ensures Snapshot() == D.OnReadComplete(old(Snapshot()), k)
    {
      var imageData := pendingReads[k];
      pendingReads := pendingReads[..k] + pendingReads[k + 1..];
      if shouldLoad {
        holder := imageData;
        canPull := "yes";
        warningShown := false;
      }
    }
  }
}
