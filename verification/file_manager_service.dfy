/**
 `FileManagerService`: single-file wrappers that turn some of a primitive's
 exceptions into a default value, and three batch operations that dispatch
 one task per file, wait for all of them, and then turn every task's
 handle into a value.

 The tasks are modelled sequentially. A task's handle is how the wrapper it
 runs ended (`Outcome`). Waiting on all handles with `allOf(...).join()`
 waits until every handle has completed, then throws a CompletionException
 if one of them ended with a throw; only when every handle returned does the second walk read the values, so
 the default of each per-handle `catch (Exception e)` is never used.
 */
module FileManagerService {
  import opened JavaLang
  import IOUtils

  /** `IOUtils.copyFile(src, dest)`: how copying one file ends. */
  type CopyPrimitive = (string, string) -> Outcome<bool>

  /** `IOUtils.deleteFile(name)`: how deleting one file ends. */
  type DeletePrimitive = string -> Outcome<bool>

  /** Opening a file by name for `IOUtils.find`. */
  type FileSystem = string -> IOUtils.LineReader

  /** The largest number of source files `copyFiles` accepts. */
  const MaxCopySources := 20

  // ---------------------------------------------------------------------
  // Single-file wrappers
  // ---------------------------------------------------------------------

  /** `copyFile`: an IOException from the copy becomes `false`; any other
      throwable escapes (only IOException is caught). */
  function CopyFile(copy: CopyPrimitive, src: string, dest: string): (r: Outcome<bool>)
    ensures r == Returned(true) <==> copy(src, dest) == Returned(true)
    ensures copy(src, dest) == Threw(IOException) ==> r == Returned(false)
    ensures r.Threw? <==> copy(src, dest).Threw? && copy(src, dest).thrown != IOException
    ensures r.Threw? ==> r.thrown == copy(src, dest).thrown
  {
    match copy(src, dest)
    case Returned(copied) => Returned(copied)
    case Threw(IOException) => Returned(false)
    case Threw(t) => Threw(t)
  }

  /** `deleteFile`: every Exception from the deletion becomes `false`; only
      a java.lang.Error escapes. */
  function DeleteFile(delete: DeletePrimitive, fileName: string): (r: Outcome<bool>)
    ensures r == Returned(true) <==> delete(fileName) == Returned(true)
    ensures delete(fileName).Threw? && IsException(delete(fileName).thrown) ==> r == Returned(false)
    ensures r.Threw? <==> delete(fileName).Threw? && delete(fileName).thrown.Error?
    ensures r.Threw? ==> r.thrown == delete(fileName).thrown
  {
    match delete(fileName)
    case Returned(deleted) => Returned(deleted)
    case Threw(t) => if IsException(t) then Returned(false) else Threw(t)
  }

  /** `findPattern(fileName, pattern)`: the result starts as null and is
      replaced by `find`'s list; the `catch (IOException e)` around it can
      never fire, because `find` catches every IOException itself. So the
      wrapper never returns null, and it throws exactly what `find` throws. */
  function FindPattern(fs: FileSystem, fileName: string, pattern: string): (r: Outcome<Option<seq<int>>>)
    ensures r.Returned? ==> r.value.Some? && IOUtils.IsMatchList(r.value.value, fs(fileName).lines, pattern)
    ensures r.Threw? <==> fs(fileName).stop.Some? && fs(fileName).stop.value != IOException
    ensures r.Threw? ==> r.thrown == fs(fileName).stop.value
  {
    match IOUtils.Find(fs(fileName), pattern)
    case Returned(lineNumbers) => Returned(Some(lineNumbers))
    case Threw(IOException) => Returned(None)
    case Threw(t) => Threw(t)
  }

  // ---------------------------------------------------------------------
  // Waiting for tasks and reading their handles
  // ---------------------------------------------------------------------

  /** `future.get()` inside `catch (Exception e)`: the task's value, or
      `default` when the task threw. */
  function Await<T>(handle: Outcome<T>, default: T): T
  {
    match handle
    case Returned(v) => v
    case Threw(_) => default
  }

  /** Every handle completed normally, so `allOf(...).join()` returns. */
  predicate AllReturned<T>(handles: seq<Outcome<T>>)
  {
    forall i :: 0 <= i < |handles| ==> handles[i].Returned?
  }

  /** The second walk: every recorded handle awaited in recorded order. */
  function AwaitAll<T>(handles: seq<Outcome<T>>, default: T): seq<T>
  {
    seq(|handles|, i requires 0 <= i < |handles| => Await(handles[i], default))
  }

  // ---------------------------------------------------------------------
  // copyFiles
  // ---------------------------------------------------------------------

  /** The input check of `copyFiles`: between 1 and 20 source files. */
  predicate ValidCopyRequest(files: map<string, set<string>>)
  {
    0 < |files| <= MaxCopySources
  }

  /** The task copying `src` to `target` completes exceptionally: the copy
      threw something `copyFile` does not catch. */
  predicate CopyTaskFails(copy: CopyPrimitive, src: string, target: string)
  {
    copy(src, target).Threw? && copy(src, target).thrown != IOException
  }

  /** Some requested copy task completes exceptionally. */
  ghost predicate SomeCopyTaskFails(copy: CopyPrimitive, files: map<string, set<string>>)
  {
    exists src, target :: src in files && target in files[src] && CopyTaskFails(copy, src, target)
  }

  /** One copy task per target, in the order the target set is visited. */
  function DispatchCopies(copy: CopyPrimitive, src: string, targets: seq<string>): seq<Outcome<bool>>
  {
    seq(|targets|, i requires 0 <= i < |targets| => CopyFile(copy, src, targets[i]))
  }

  /** The first walk of `copyFiles`: per source, the handles of its copy
      tasks, recorded under the source's name. */
  ghost function CopyHandles(copy: CopyPrimitive, files: map<string, set<string>>): map<string, seq<Outcome<bool>>>
  {
    map src | src in files :: DispatchCopies(copy, src, Enumerate(files[src]))
  }

  /** The second walk of `copyFiles` over the recorded handles: per source,
      one entry per target (in the order the target set is visited), `true`
      exactly when copying to that target returned `true`. */
  ghost function CopyResults(copy: CopyPrimitive, files: map<string, set<string>>): (r: map<string, seq<bool>>)
    ensures r.Keys == files.Keys
    ensures forall src :: src in r ==> |r[src]| == |files[src]|
    ensures forall src, i :: src in r && 0 <= i < |r[src]| ==>
      (r[src][i] <==> copy(src, Enumerate(files[src])[i]) == Returned(true))
  {
    var handles := CopyHandles(copy, files);
    map src | src in handles :: AwaitAll(handles[src], false)
  }

  /** A handle of `src` that holds a throw belongs to a failing copy task
      to one of `src`'s targets. */
  lemma CopyJoinFailureHasFailingTask(copy: CopyPrimitive, files: map<string, set<string>>, src: string)
    requires src in files && !AllReturned(CopyHandles(copy, files)[src])
    ensures exists target :: target in files[src] && CopyTaskFails(copy, src, target)
  {
    var handles := CopyHandles(copy, files)[src];
    var i :| 0 <= i < |handles| && handles[i].Threw?;
    var order := Enumerate(files[src]);
    assert order[i] in order;
    assert CopyTaskFails(copy, src, order[i]);
  }

  /** A failing copy task leaves a throw among its source's handles. */
  lemma FailingCopyTaskFailsJoin(copy: CopyPrimitive, files: map<string, set<string>>, src: string, target: string)
    requires src in files && target in files[src] && CopyTaskFails(copy, src, target)
    ensures src in CopyHandles(copy, files) && !AllReturned(CopyHandles(copy, files)[src])
  {
    var order := Enumerate(files[src]);
    assert target in order;
    var i :| 0 <= i < |order| && order[i] == target;
    assert CopyHandles(copy, files)[src][i].Threw?;
  }

  /** The join fails exactly when some requested copy task fails. */
  lemma CopyJoinFailsIff(copy: CopyPrimitive, files: map<string, set<string>>)
    ensures var handles := CopyHandles(copy, files);
            (exists src :: src in handles && !AllReturned(handles[src])) <==> SomeCopyTaskFails(copy, files)
  {
    var handles := CopyHandles(copy, files);
    if exists src :: src in handles && !AllReturned(handles[src]) {
      var src :| src in handles && !AllReturned(handles[src]);
      CopyJoinFailureHasFailingTask(copy, files, src);
    }
    if SomeCopyTaskFails(copy, files) {
      var src, target :| src in files && target in files[src] && CopyTaskFails(copy, src, target);
      FailingCopyTaskFailsJoin(copy, files, src, target);
    }
  }

  /** `copyFiles` as written: rejects a map with no keys or more than 20
      keys before dispatching anything; otherwise dispatches one copy task
      per target, and the join throws a CompletionException when any task
      failed. When it returns, the result keeps the input's keys and gives
      each source one entry per target (in the order the target set is
      visited): `true` exactly when copying to that target returned `true`. */
  ghost function CopyFiles(copy: CopyPrimitive, files: map<string, set<string>>): (r: Outcome<map<string, seq<bool>>>)
    ensures !ValidCopyRequest(files) ==> r == Threw(UnsupportedOperationException)
    ensures ValidCopyRequest(files) ==> (r.Threw? <==> SomeCopyTaskFails(copy, files))
    ensures ValidCopyRequest(files) && r.Threw? ==> r.thrown == CompletionException
    ensures r.Returned? ==> r.value.Keys == files.Keys
    ensures r.Returned? ==> forall src :: src in r.value ==> |r.value[src]| == |files[src]|
    ensures r.Returned? ==> forall src, i :: src in r.value && 0 <= i < |r.value[src]| ==>
      (r.value[src][i] <==> copy(src, Enumerate(files[src])[i]) == Returned(true))
  {
    if !ValidCopyRequest(files) then
      Threw(UnsupportedOperationException)
    else
      var handles := CopyHandles(copy, files);
      CopyJoinFailsIff(copy, files);
      if exists src :: src in handles && !AllReturned(handles[src]) then
        Threw(CompletionException)
      else
        Returned(CopyResults(copy, files))
  }

  /** A rejected request is rejected whatever the copies would do: no copy
      outcome is consulted before the check. */
  lemma CopyFilesRejectsBeforeDispatch(copy: CopyPrimitive, copy': CopyPrimitive, files: map<string, set<string>>)
    requires !ValidCopyRequest(files)
    ensures CopyFiles(copy, files) == CopyFiles(copy', files) == Threw(UnsupportedOperationException)
  {
  }

  /** One copy that throws anything but an IOException makes the whole call
      throw: the join rethrows the task's failure before the per-task
      `catch` that would have turned it into `false` is reached. */
  lemma CopyFilesJoinRethrows(copy: CopyPrimitive, files: map<string, set<string>>, src0: string, target0: string)
    requires ValidCopyRequest(files)
    requires src0 in files && target0 in files[src0]
    requires copy(src0, target0).Threw? && copy(src0, target0).thrown != IOException
    ensures CopyFiles(copy, files) == Threw(CompletionException)
  {
    assert CopyTaskFails(copy, src0, target0);
  }

  /** A valid batch returns with every entry `true` exactly when every
      single copy returned `true`. */
  lemma CopyFilesAllTrue(copy: CopyPrimitive, files: map<string, set<string>>)
    requires ValidCopyRequest(files)
    ensures (&& CopyFiles(copy, files).Returned?
             && forall src, i :: src in files && 0 <= i < |CopyFiles(copy, files).value[src]| ==>
                  CopyFiles(copy, files).value[src][i])
        <==> (forall src, target :: src in files && target in files[src] ==> copy(src, target) == Returned(true))
  {
    var r := CopyFiles(copy, files);
    if r.Returned? && forall src, i :: src in files && 0 <= i < |r.value[src]| ==> r.value[src][i] {
      forall src, target | src in files && target in files[src]
        ensures copy(src, target) == Returned(true)
      {
        var order := Enumerate(files[src]);
        assert target in order;
        var i :| 0 <= i < |order| && order[i] == target;
        assert r.value[src][i];
      }
    }
    if forall src, target :: src in files && target in files[src] ==> copy(src, target) == Returned(true) {
      assert !SomeCopyTaskFails(copy, files);
    }
  }

  /** A copy that throws an IOException (the one failure `copyFile` turns
      into `false`) changes only its own entry, to `false`: when no task of
      the batch fails, both calls return, and every sibling entry is
      unchanged. */
  lemma CopyFilesIsolatesFailure(copy: CopyPrimitive, copy': CopyPrimitive, files: map<string, set<string>>,
                                 src0: string, target0: string)
    requires ValidCopyRequest(files)
    requires forall src, target :: src in files && target in files[src] ==> !CopyTaskFails(copy, src, target)
    requires forall src, target :: (src, target) != (src0, target0) ==> copy'(src, target) == copy(src, target)
    requires copy'(src0, target0) == Threw(IOException)
    ensures CopyFiles(copy, files).Returned? && CopyFiles(copy', files).Returned?
    ensures var r, r' := CopyFiles(copy, files).value, CopyFiles(copy', files).value;
            forall src, i :: src in files && 0 <= i < |r[src]| ==>
              if (src, Enumerate(files[src])[i]) == (src0, target0) then !r'[src][i] else r'[src][i] == r[src][i]
  {
    assert !SomeCopyTaskFails(copy, files);
    forall src, target | src in files && target in files[src]
      ensures !CopyTaskFails(copy', src, target)
    {
      if (src, target) != (src0, target0) {
        assert !CopyTaskFails(copy, src, target);
      }
    }
  }

  /** The failure-tolerant `copyFiles` that the method's documentation (a
      map holding the status of each copy) suggests: the same check and
      dispatch, but a failed task only puts `false` in its own
      entry, and a valid batch always returns. */
  ghost function CopyFilesTolerant(copy: CopyPrimitive, files: map<string, set<string>>): (r: Outcome<map<string, seq<bool>>>)
    ensures r.Threw? <==> !ValidCopyRequest(files)
    ensures r.Threw? ==> r.thrown == UnsupportedOperationException
    ensures r.Returned? ==> r.value.Keys == files.Keys
    ensures r.Returned? ==> forall src :: src in r.value ==> |r.value[src]| == |files[src]|
    ensures r.Returned? ==> forall src, i :: src in r.value && 0 <= i < |r.value[src]| ==>
      (r.value[src][i] <==> copy(src, Enumerate(files[src])[i]) == Returned(true))
  {
    if !ValidCopyRequest(files) then
      Threw(UnsupportedOperationException)
    else
      Returned(CopyResults(copy, files))
  }

  /** In the intended batch any failing copy, whatever it throws, changes
      only its own entry, to `false`, and the call still returns. */
  lemma CopyFilesTolerantIsolatesFailure(copy: CopyPrimitive, copy': CopyPrimitive, files: map<string, set<string>>,
                                         src0: string, target0: string)
    requires ValidCopyRequest(files)
    requires forall src, target :: (src, target) != (src0, target0) ==> copy'(src, target) == copy(src, target)
    requires copy'(src0, target0).Threw?
    ensures CopyFilesTolerant(copy', files).Returned?
    ensures var r, r' := CopyFilesTolerant(copy, files).value, CopyFilesTolerant(copy', files).value;
            forall src, i :: src in files && 0 <= i < |r[src]| ==>
              if (src, Enumerate(files[src])[i]) == (src0, target0) then !r'[src][i] else r'[src][i] == r[src][i]
  {
  }

  /** The two readings differ only where a task fails: with no failing
      task they give the same result, and otherwise the written one throws
      where the intended one returns. */
  lemma CopyFilesAgreesWithTolerant(copy: CopyPrimitive, files: map<string, set<string>>)
    ensures !SomeCopyTaskFails(copy, files) ==> CopyFiles(copy, files) == CopyFilesTolerant(copy, files)
    ensures ValidCopyRequest(files) && SomeCopyTaskFails(copy, files) ==>
      CopyFiles(copy, files).Threw? && CopyFilesTolerant(copy, files).Returned?
  {
    CopyJoinFailsIff(copy, files);
  }

  // ---------------------------------------------------------------------
  // deleteFiles
  // ---------------------------------------------------------------------

  /** The number of `true` entries. */
  function CountTrue(bs: seq<bool>): nat
  {
    if bs == [] then 0 else (if bs[0] then 1 else 0) + CountTrue(bs[1..])
  }

  /** The names whose deletion returned `true`. */
  ghost function Deleted(delete: DeletePrimitive, fileNames: set<string>): set<string>
  {
    set name | name in fileNames && delete(name) == Returned(true)
  }

  /** The task deleting `name` completes exceptionally: the deletion threw
      an Error, the one throwable `deleteFile` does not catch. */
  predicate DeleteTaskFails(delete: DeletePrimitive, fileName: string)
  {
    delete(fileName).Threw? && delete(fileName).thrown.Error?
  }

  /** The handles of the delete tasks, one per name, in visiting order. */
  ghost function DeleteHandles(delete: DeletePrimitive, fileNames: set<string>): seq<Outcome<bool>>
  {
    var order := Enumerate(fileNames);
    seq(|order|, i requires 0 <= i < |order| => DeleteFile(delete, order[i]))
  }

  /** The join fails exactly when some delete task fails. */
  lemma DeleteJoinFailsIff(delete: DeletePrimitive, fileNames: set<string>)
    ensures !AllReturned(DeleteHandles(delete, fileNames))
        <==> exists name :: name in fileNames && DeleteTaskFails(delete, name)
  {
    var order := Enumerate(fileNames);
    var handles := DeleteHandles(delete, fileNames);
    if !AllReturned(handles) {
      var i :| 0 <= i < |handles| && handles[i].Threw?;
      assert order[i] in order;
      assert DeleteTaskFails(delete, order[i]);
    }
    if exists name :: name in fileNames && DeleteTaskFails(delete, name) {
      var name :| name in fileNames && DeleteTaskFails(delete, name);
      assert name in order;
      var i :| 0 <= i < |order| && order[i] == name;
      assert handles[i].Threw?;
    }
  }

  /** `deleteFiles`: one delete task per name, in the order the set is
      visited; the join throws a CompletionException when a deletion threw
      an Error, and otherwise each entry is `true` exactly when deleting
      that file returned `true`. No bound on the number of names. */
  ghost function DeleteFiles(delete: DeletePrimitive, fileNames: set<string>): (r: Outcome<seq<bool>>)
    ensures r.Threw? <==> exists name :: name in fileNames && DeleteTaskFails(delete, name)
    ensures r.Threw? ==> r.thrown == CompletionException
    ensures r.Returned? ==> |r.value| == |fileNames|
    ensures r.Returned? ==> forall i :: 0 <= i < |r.value| ==>
      (r.value[i] <==> delete(Enumerate(fileNames)[i]) == Returned(true))
  {
    var handles := DeleteHandles(delete, fileNames);
    DeleteJoinFailsIff(delete, fileNames);
    if !AllReturned(handles) then Threw(CompletionException)
    else Returned(AwaitAll(handles, false))
  }

  /** Per name along `order`, whether its deletion returned `true`. */
  function DeleteFlags(delete: DeletePrimitive, order: seq<string>): seq<bool>
  {
    seq(|order|, i requires 0 <= i < |order| => delete(order[i]) == Returned(true))
  }

  /** The names along `order` whose deletion returned `true`. */
  ghost function DeletedAlong(delete: DeletePrimitive, order: seq<string>): set<string>
  {
    set name | name in order && delete(name) == Returned(true)
  }

  /** The deleted names along `order` are its head, if deleted, and the
      deleted names along its tail. */
  lemma DeletedAlongStep(delete: DeletePrimitive, order: seq<string>)
    requires order != []
    ensures DeletedAlong(delete, order)
         == (if delete(order[0]) == Returned(true) then {order[0]} else {}) + DeletedAlong(delete, order[1..])
  {
    assert forall name :: name in order <==> name == order[0] || name in order[1..];
  }

  /** Walking any duplicate-free order of names, the number of `true`
      results is the number of names deleted. */
  lemma {:induction false} CountDeletedAlongOrder(delete: DeletePrimitive, order: seq<string>)
    requires NoDuplicates(order)
    ensures CountTrue(DeleteFlags(delete, order)) == |DeletedAlong(delete, order)|
    decreases |order|
  {
    if order != [] {
      var rest := order[1..];
      assert DeleteFlags(delete, order)[1..] == DeleteFlags(delete, rest);
      assert NoDuplicates(rest);
      CountDeletedAlongOrder(delete, rest);
      DeletedAlongStep(delete, order);
      assert order[0] !in rest;
      assert order[0] !in DeletedAlong(delete, rest);
    }
  }

  /** However the set is visited, when `deleteFiles` returns, the number of
      `true` entries is the number of files whose deletion returned `true`. */
  lemma DeleteFilesCountsDeleted(delete: DeletePrimitive, fileNames: set<string>)
    ensures DeleteFiles(delete, fileNames).Returned? ==>
      CountTrue(DeleteFiles(delete, fileNames).value) == |Deleted(delete, fileNames)|
  {
    var r := DeleteFiles(delete, fileNames);
    if r.Returned? {
      var order := Enumerate(fileNames);
      assert r.value == DeleteFlags(delete, order);
      CountDeletedAlongOrder(delete, order);
      assert DeletedAlong(delete, order) == Deleted(delete, fileNames);
    }
  }

  // ---------------------------------------------------------------------
  // findPattern over a set of files
  // ---------------------------------------------------------------------

  /** The scan task for `fileName` completes exceptionally: reading stopped
      with a throwable other than an IOException, which `find` lets through. */
  predicate ScanTaskFails(fs: FileSystem, fileName: string)
  {
    fs(fileName).stop.Some? && fs(fileName).stop.value != IOException
  }

  /** `findPattern(fileNames, pattern)`: one scan task per file, recorded
      under its name. The join throws a CompletionException when some scan
      task failed; otherwise every name maps to exactly the list `find`
      returns for that file, and null never appears in the map. */
  function FindPatterns(fs: FileSystem, fileNames: set<string>, pattern: string): (r: Outcome<map<string, Option<seq<int>>>>)
    ensures r.Threw? <==> exists name :: name in fileNames && ScanTaskFails(fs, name)
    ensures r.Threw? ==> r.thrown == CompletionException
    ensures r.Returned? ==> r.value.Keys == fileNames
    ensures r.Returned? ==> forall name :: name in r.value ==>
      r.value[name].Some? && IOUtils.Find(fs(name), pattern) == Returned(r.value[name].value)
    ensures r.Returned? ==> forall name :: name in r.value ==>
      r.value[name].Some? && IOUtils.IsMatchList(r.value[name].value, fs(name).lines, pattern)
  {
    var handles := map name | name in fileNames :: FindPattern(fs, name, pattern);
    assert forall name :: name in fileNames ==> (handles[name].Threw? <==> ScanTaskFails(fs, name));
    if exists name :: name in handles && handles[name].Threw? then
      Threw(CompletionException)
    else
      Returned(map name | name in handles :: Await(handles[name], None))
  }
}
