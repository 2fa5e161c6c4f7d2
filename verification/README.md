# File manager: batch copy, delete and pattern search

A Dafny model of the core of a small Java (Spring) file manager:

- `IOUtils.find` scans a file line by line and returns the 1-based numbers of
  the lines that contain a pattern as a literal substring.
- `IOUtils.copyContents` copies the values `read()` returns to an output
  stream while they are positive.
- `FileManagerService` wraps the single-file primitives so that some
  failures become a default value (`copyFile`, `deleteFile`,
  `findPattern(String, String)`), and runs them as batches (`copyFiles`,
  `deleteFiles`, `findPattern(Set, String)`): validate, dispatch one task per
  file recording its handle under the originating key, wait for all of them
  with one `allOf(...).join()`, then walk the recorded handles and turn each
  into a value. Once every task has ended, the join throws a CompletionException if any task
  failed, so a batch either throws or returns a value for every task.

Files:

- `java_lang.dfy` (module `JavaLang`): how a Java call ends (`Outcome`: returns
  or throws), the throwables the catch clauses tell apart (`IOException`,
  `UnsupportedOperationException`, `CompletionException`, any other
  Exception, `Error`),
  nullable references (`Option`), and hash-set iteration order (`Enumerate`,
  some duplicate-free enumeration of the set).
- `io_utils.dfy` (module `IOUtils`): `Contains` (String.contains), `ScanLines`
  and `Find`, and the byte loop `CopyWhile` with its two instances
  `CopyContents` (as written) and `CopyContentsToEnd` (as intended).
- `file_manager_service.dfy` (module `FileManagerService`): the three wrappers
  and the three batches, plus `CopyFilesTolerant`, the failure-tolerant
  batch copy that the method's documentation (a map holding the status of
  each copy) suggests.

Modelling choices:

- The concurrency is collapsed to sequential dispatch and collect. A task's
  handle is the `Outcome` of the wrapper it runs. A task fails when its
  wrapper throws: `copyFile` lets through anything but an IOException,
  `deleteFile` only an Error, and `findPattern(String, String)` anything
  but an IOException. When some task failed, the join throws a
  CompletionException out of the batch. Otherwise every handle returned, and
  the second walk reads each value; the default (`false` or null) of the
  per-handle `catch (Exception e)` is never used.
- The file system is a parameter: `CopyPrimitive` and `DeletePrimitive` say
  how `IOUtils.copyFile` / `IOUtils.deleteFile` end for each argument, and
  `FileSystem` gives, per file name, the lines a reader delivers and how
  reading stops (end of file, or a throwable from opening, reading or
  closing).
- `IOUtils.copyFile` is declared `void` (IOUtils.java:28) yet its result is
  assigned to a boolean in `copyFile` (FileManagerService.java:26), so the
  Java does not compile as it stands. The model gives the copy primitive an
  abstract boolean result or a throwable.
- `findPattern(String, String)` catches an IOException that `find` never
  throws (FileManagerService.java:47, IOUtils.java:40 and 56); Java rejects
  that too. The model keeps the dead catch branch and proves that the wrapper
  never returns null.
- An I/O failure while `find` reads a file is not reported: `find` returns
  the matches collected up to that point.
- Bad input to `copyFiles` (no source, or more than 20) is rejected with an
  `UnsupportedOperationException`.

## Model

| member | source | states |
|---|---|---|
| JavaLang.Enumerate | src/main/java/com/digitalequity/toogroovy/filemanager/service/FileManagerService.java:85-93 | the order a hash set is visited in lists every element exactly once, with as many entries as the set has elements |
| IOUtils.Contains | src/main/java/com/digitalequity/toogroovy/filemanager/utils/IOUtils.java:50 | the line test is true exactly when the pattern occurs in the line as a literal substring at some position (so the empty pattern matches every line) |
| IOUtils.ScanLines | src/main/java/com/digitalequity/toogroovy/filemanager/utils/IOUtils.java:44-55 | the counting loop yields strictly increasing numbers, and a number is yielded exactly when it is the number of a scanned line containing the pattern |
| IOUtils.Find | src/main/java/com/digitalequity/toogroovy/filemanager/utils/IOUtils.java:40-61 | find returns an increasing list of numbers in 1..number of lines, containing k exactly when line k contains the pattern; an I/O failure never escapes, only a non-IOException throwable does |
| IOUtils.FindIsTheMatchList | src/main/java/com/digitalequity/toogroovy/filemanager/utils/IOUtils.java:44-55 | the ordering, bounds and membership properties determine find's result completely: any list meeting them is the one find returns |
| IOUtils.ScanLinesAppend | src/main/java/com/digitalequity/toogroovy/filemanager/utils/IOUtils.java:45-55 | scanning lines a then b equals scanning a, followed by scanning b with numbering continued from the end of a |
| IOUtils.FindKeepsMatchesBeforeReadFailure | src/main/java/com/digitalequity/toogroovy/filemanager/utils/IOUtils.java:48-60 | when reading fails with an I/O error after n lines, find still returns normally, and its result is the prefix of the full file's result made of the matches among the first n lines |
| IOUtils.CopyWhile | src/main/java/com/digitalequity/toogroovy/filemanager/utils/IOUtils.java:21-26 | the copy loop writes a contiguous run of the source whose values all pass the loop test, stopping at the first value that fails it or at the end; a throw from read escapes only if the loop reaches the end of the bytes |
| IOUtils.CopyContents | src/main/java/com/digitalequity/toogroovy/filemanager/utils/IOUtils.java:21-26 | copyContents writes the longest prefix of the source with no zero byte: a prefix, NUL-free, and either the whole source or followed by a zero |
| IOUtils.CopyContentsStopsAtNul | src/main/java/com/digitalequity/toogroovy/filemanager/utils/IOUtils.java:23-25 | a source containing a zero at position j never has more than j bytes copied, and the copy reports no failure |
| IOUtils.CopyContentsDropsAfterNulExample | src/main/java/com/digitalequity/toogroovy/filemanager/utils/IOUtils.java:23 | the source 'A', NUL, 'B' is copied as 'A' alone |
| IOUtils.CopyContentsToEnd | src/main/java/com/digitalequity/toogroovy/filemanager/utils/IOUtils.java:21-26 | with the loop running until end of stream, the destination receives exactly the source, and a failing stream still throws its failure |
| FileManagerService.CopyFile | src/main/java/com/digitalequity/toogroovy/filemanager/service/FileManagerService.java:23-31 | copyFile returns true exactly when the copy returned true, returns false for an IOException, and throws exactly when the copy threw anything else, rethrowing that same throwable |
| FileManagerService.DeleteFile | src/main/java/com/digitalequity/toogroovy/filemanager/service/FileManagerService.java:33-41 | deleteFile returns true exactly when the deletion returned true, returns false for any Exception, and throws exactly when the deletion threw an Error, rethrowing that same Error |
| FileManagerService.FindPattern | src/main/java/com/digitalequity/toogroovy/filemanager/service/FileManagerService.java:43-51 | the single-file search never returns null; when it returns, the list meets find's ordering, bounds and membership properties; it throws exactly when reading stopped with a non-IOException throwable, and then throws that same throwable |
| FileManagerService.CopyFiles | src/main/java/com/digitalequity/toogroovy/filemanager/service/FileManagerService.java:76-115 | copyFiles throws UnsupportedOperationException when the map has 0 or more than 20 keys; otherwise it throws CompletionException exactly when some copy throws something other than an IOException, and when it returns, the result has the input's key set, one entry per target of each source, each true exactly when that copy returned true |
| FileManagerService.CopyFilesRejectsBeforeDispatch | src/main/java/com/digitalequity/toogroovy/filemanager/service/FileManagerService.java:81-82 | a rejected request gives the same exception whatever every copy would have done, so no copy outcome is consulted |
| FileManagerService.CopyFilesAllTrue | src/main/java/com/digitalequity/toogroovy/filemanager/service/FileManagerService.java:96-112 | a valid batch returns with every entry true if and only if every requested copy returned true |
| FileManagerService.CopyFilesIsolatesFailure | src/main/java/com/digitalequity/toogroovy/filemanager/service/FileManagerService.java:23-31 | when no copy task of a valid batch fails, a copy that throws an IOException instead (turned into false by copyFile) changes only its own entry, to false: both batches return, with every sibling entry unchanged |
| FileManagerService.CopyResults | src/main/java/com/digitalequity/toogroovy/filemanager/service/FileManagerService.java:100-112 | the second walk gives every source of the request one entry per target, each true exactly when copying to that target returned true |
| FileManagerService.CopyJoinFailureHasFailingTask | src/main/java/com/digitalequity/toogroovy/filemanager/service/FileManagerService.java:96 | a source whose recorded handles hold a throw has a target whose copy task fails |
| FileManagerService.FailingCopyTaskFailsJoin | src/main/java/com/digitalequity/toogroovy/filemanager/service/FileManagerService.java:85-96 | a failing copy task leaves a throw among the handles recorded under its source |
| FileManagerService.CopyJoinFailsIff | src/main/java/com/digitalequity/toogroovy/filemanager/service/FileManagerService.java:85-96 | the join over the recorded copy handles fails exactly when some requested (source, target) copy task fails |
| FileManagerService.CopyFilesJoinRethrows | src/main/java/com/digitalequity/toogroovy/filemanager/service/FileManagerService.java:96 | one copy of a valid batch throwing something other than an IOException makes copyFiles throw CompletionException, so the per-task catch never turns it into false |
| FileManagerService.CopyFilesTolerant | src/main/java/com/digitalequity/toogroovy/filemanager/service/FileManagerService.java:100-112 | the intended batch copy: it throws only for 0 or more than 20 keys; otherwise it returns the input's key set with one entry per target, each true exactly when that copy returned true and false for any failure |
| FileManagerService.CopyFilesTolerantIsolatesFailure | src/main/java/com/digitalequity/toogroovy/filemanager/service/FileManagerService.java:102-110 | in the intended batch copy, any failing copy, whatever it throws, changes only its own entry, to false, and the call still returns |
| FileManagerService.CopyFilesAgreesWithTolerant | src/main/java/com/digitalequity/toogroovy/filemanager/service/FileManagerService.java:96-112 | with no failing copy task the written and the intended batch copy give the same result; with one, the written one throws where the intended one returns |
| FileManagerService.DeleteFiles | src/main/java/com/digitalequity/toogroovy/filemanager/service/FileManagerService.java:122-143 | deleteFiles throws CompletionException exactly when some deletion threw an Error; otherwise it returns one boolean per file name, in the set's visiting order, each true exactly when deleting that file returned true |
| FileManagerService.DeleteJoinFailsIff | src/main/java/com/digitalequity/toogroovy/filemanager/service/FileManagerService.java:127-128 | the join over the delete handles fails exactly when deleting some name threw an Error |
| FileManagerService.CountDeletedAlongOrder | src/main/java/com/digitalequity/toogroovy/filemanager/service/FileManagerService.java:132-140 | walking any duplicate-free list of names, the number of true results equals the number of distinct names whose deletion returned true |
| FileManagerService.DeleteFilesCountsDeleted | src/main/java/com/digitalequity/toogroovy/filemanager/service/FileManagerService.java:122-143 | whatever order the set is visited in, when deleteFiles returns, the number of true entries equals the number of files whose deletion returned true |
| FileManagerService.FindPatterns | src/main/java/com/digitalequity/toogroovy/filemanager/service/FileManagerService.java:151-179 | findPattern over a set throws CompletionException exactly when some file's scan threw something other than an IOException; otherwise the result's key set is the input set and every file maps to exactly the (never null) list find returns for it, which meets find's ordering, bounds and membership properties |

## Left out

- `IOUtils.copyFile` and `IOUtils.deleteFile` (IOUtils.java:16-19, 28-38): they open, write, close and delete real files; the model takes how each call ends as a parameter.
- `CompletableFuture.supplyAsync` and `@Async`: when tasks start and finish is not modelled. The join is modelled as waiting for every task and then throwing when any of them failed; that outcome does not depend on completion order. The side effects of tasks that still ran before a batch threw are not modelled.
- The cause of the CompletionException thrown by the join (FileManagerService.java:96, 128, 163): Java sets `getCause()` to the throwable of a failed task, while the model's `Threw(CompletionException)` records only that the batch threw, not which task failed or with what.
- Java's string encoding: a Java `String` is a sequence of UTF-16 code units, but a Dafny `string` is a sequence of Unicode scalar values. A pattern or line holding an unpaired surrogate therefore cannot be expressed, and neither can `String.contains` matching a pattern against half of a surrogate pair. For well-formed text the two agree.
- Timing and logging (`Instant`, slf4j): observability only.
- Spring wiring (`@Service`, the `@Value` field `fileDirectory`): configuration plumbing, unused by the logic.
- `FileCopyRunnable`: a Runnable that calls `IOUtils.copyFile` and prints a stack trace; it has no logic of its own.
- Hash iteration order: the model relies only on it being a duplicate-free enumeration (`Enumerate`); which enumeration Java picks is not modelled.
- Null inputs (a null target set, a null pattern or file name): Dafny values cannot be null, so the NullPointerExceptions they would cause are not modelled.
- Write failures of the destination stream in `copyContents`: the output stream is taken to accept every byte.
- IOUtils.Find: line numbers are unbounded integers; the 32-bit `int` counter of the source would only wrap after 2^31 lines.
- IOUtils.Find: the splitting of a file into lines by `BufferedReader.readLine` is not modelled; a file is given as its lines.

## Findings

| source | as written | input that shows it | evidently intended | confidence | as-written member | corrected member |
|---|---|---|---|---|---|---|
| src/main/java/com/digitalequity/toogroovy/filemanager/service/FileManagerService.java:96 | the join rethrows, as a CompletionException, the failure of any copy task, before the per-task `catch` that would turn that failure into `false` (lines 104-108) is reached | a map with the single source "a" and target "b", where copying "a" to "b" throws a SecurityException: copyFiles throws instead of returning "a" mapped to a list holding `false` | as the method's documentation (line 73) describes the result, a map with the status of each copy: a failed copy task gives `false` in its own entry, its siblings are unaffected, and the call returns | not executed; low (the method's documentation promises a map holding the status of each copy, which a thrown batch does not give; but the declaration `throws Exception` allows the throw, and the per-task `catch` is needed to compile anyway, because `get` throws checked exceptions inside a stream lambda) | FileManagerService.CopyFilesJoinRethrows | FileManagerService.CopyFilesTolerant |
| src/main/java/com/digitalequity/toogroovy/filemanager/utils/IOUtils.java:23 | the loop continues only while `read()` returns a positive value, so a zero byte ends the copy as if it were end of stream | a source holding the bytes 0x41, 0x00, 0x42: the destination receives 0x41 only, and no exception reports the truncation | continue until `read()` returns -1, so that every byte, zero included, is copied | not executed; high (binary files and text containing NUL are truncated silently) | IOUtils.CopyContentsStopsAtNul | IOUtils.CopyContentsToEnd |
