/** The rotating log of a call session: a class that writes it file by file, and one that reads the
    files back from the oldest to the newest. */
module FileRotatingStream {
  import opened ByteOrder
  import opened LogLayout
  import opened LogNames
  import opened Options
  import opened Strings

  datatype StreamResult = Success | Error | Eos

  function Min(a: nat, b: nat): nat { if a < b then a else b }

  type Directory = map<string, seq<byte>>

  ghost predicate Holds(disk: Directory, name: string, file: Option<seq<byte>>) {
    if file.Some? then name in disk && disk[name] == file.value else name !in disk
  }

  function At(files: Files, i: int): Option<seq<byte>> {
    if 0 <= i < |files| then Some(files[i]) else None
  }

  /** The directory holds these files and no others, under their names. */
  ghost predicate Stored(disk: Directory, names: seq<string>, files: Files) {
    && |files| <= |names|
    && (forall name | name in disk :: name in names)
    && forall i | 0 <= i < |names| :: Holds(disk, names[i], At(files, i))
  }

  ghost predicate Distinct(names: seq<string>) {
    forall i, j | 0 <= i < j < |names| :: names[i] != names[j]
  }

  /** What the i-th name stands for while files are being renamed, the free name being the one at
      `free`. */
  function Moving(files: Files, r: nat, free: nat, i: int): Option<seq<byte>> {
    if i == free then None else if free < i <= r then At(files, i - 1) else At(files, i)
  }

  ghost predicate Renaming(disk: Directory, names: seq<string>, files: Files, r: nat, free: nat) {
    && (forall name | name in disk :: name in names)
    && forall i | 0 <= i < |names| :: Holds(disk, names[i], Moving(files, r, free, i))
  }

  /** Moving a file from one name to another one that is free. */
  function Moved(disk: Directory, from: string, to: string): Directory {
    if from in disk then disk[to := disk[from]] - {from} else disk
  }

  lemma RenameStep(disk: Directory, names: seq<string>, files: Files, r: nat, free: nat)
    requires Distinct(names) && 0 < free <= r < |names| && Renaming(disk, names, files, r, free)
    ensures Renaming(Moved(disk, names[free - 1], names[free]), names, files, r, free - 1)
  {
    hide Moving;
    var next := Moved(disk, names[free - 1], names[free]);
    assert names[free - 1] != names[free];
    forall i | 0 <= i < |names| ensures Holds(next, names[i], Moving(files, r, free - 1, i)) {
      MovingStep(files, r, free, i);
      assert Holds(disk, names[i], Moving(files, r, free, i));
      assert Holds(disk, names[free - 1], Moving(files, r, free, free - 1));
      assert i != free ==> names[i] != names[free];
      assert i != free - 1 ==> names[i] != names[free - 1];
    }
  }

  lemma MovingStep(files: Files, r: nat, free: nat, i: int)
    requires 0 < free <= r
    ensures Moving(files, r, free, free) == None == Moving(files, r, free - 1, free - 1)
    ensures Moving(files, r, free - 1, free) == Moving(files, r, free, free - 1)
    ensures i != free && i != free - 1 ==> Moving(files, r, free - 1, i) == Moving(files, r, free, i)
  {
  }

  /** Deleting the last file of the range starts the renaming. */
  lemma RenameStarts(disk: Directory, names: seq<string>, files: Files, r: nat)
    requires Distinct(names) && 0 < r < |names| && Stored(disk, names, files)
    ensures |files| <= |names| && Renaming(disk - {names[r]}, names, files, r, r)
  {
    forall i | 0 <= i < |names| ensures Holds(disk - {names[r]}, names[i], Moving(files, r, r, i)) {
      assert Holds(disk, names[i], At(files, i));
      assert i != r ==> names[i] != names[r];
    }
  }

  /** Creating the new file ends it. */
  lemma RenameEnds(disk: Directory, names: seq<string>, files: Files, r: nat)
    requires Distinct(names) && 0 < r < |names| && |files| <= |names|
    requires Renaming(disk, names, files, r, 0)
    ensures Stored(disk[names[0] := []], names, Rotated(files, r))
  {
    hide Rotated, Moving;
    RotatedAt(files, r, 0);
    forall i | 0 <= i < |names| ensures Holds(disk[names[0] := []], names[i], At(Rotated(files, r), i)) {
      RotatedAt(files, r, i);
      assert Holds(disk, names[i], Moving(files, r, 0, i));
      assert i > 0 ==> names[i] != names[0];
    }
  }

  lemma AppendStored(disk: Directory, names: seq<string>, files: Files, piece: seq<byte>)
    requires Distinct(names) && Stored(disk, names, files) && |files| > 0
    ensures names[0] in disk && disk[names[0]] == files[0]
    ensures Stored(disk[names[0] := files[0] + piece], names, files[0 := files[0] + piece])
  {
    assert Holds(disk, names[0], At(files, 0));
    var next := disk[names[0] := files[0] + piece];
    forall i | 0 <= i < |names| ensures Holds(next, names[i], At(files[0 := files[0] + piece], i)) {
      assert Holds(disk, names[i], At(files, i));
      assert i > 0 ==> names[i] != names[0];
    }
  }

  lemma RotatedAt(files: Files, r: nat, i: nat)
    ensures At(Rotated(files, r), i) == if i == 0 then Some([]) else Moving(files, r, 0, i)
    ensures |Rotated(files, r)| == if |files| <= r then |files| + 1 else |files|
  {
  }

  lemma MaxFileSizePositive(maxTotal: nat, rotations: nat)
    requires maxTotal >= 4
    ensures MaxFileSize(SizesFor(maxTotal), rotations) > 0
    ensures 0 < RotationIndex(SizesFor(maxTotal), rotations) <= SizesFor(maxTotal).rotating
  {
  }

  method MakeNames(prefix: string, numFiles: nat) returns (names: seq<string>)
    ensures names == Names(prefix, numFiles)
  {
    names := [];
    for i := 0 to numFiles
      invariant names == Names(prefix, numFiles)[..i]
    {
      var name := GetFilePath(prefix, i, numFiles);
      names := names + [name];
    }
  }

  class CallSessionFileRotatingStream {
    const maxTotalLogSize: nat
    const fileNames: seq<string>
    // The files of the directory whose names start with the prefix.
    var disk: Directory
    var isOpen: bool
    var maxFileSize: nat
    var rotationIndex: nat
    var currentBytesWritten: nat
    var numRotations: nat
    // Whether Open has been called, the rotations before the last time, all bytes written since, and
    // the files in use.
    ghost var started: bool
    ghost var base: nat
    ghost var stream: seq<byte>
    ghost var files: Files

    ghost function C(): Sizes
      requires maxTotalLogSize >= 4
    {
      SizesFor(maxTotalLogSize)
    }

    ghost predicate Configured()
      reads this
    {
      && maxTotalLogSize >= 4
      && Distinct(fileNames) && |fileNames| == C().rotating + 1
      && rotationIndex == RotationIndex(C(), numRotations)
      && maxFileSize == MaxFileSize(C(), numRotations)
    }

    ghost predicate InSession()
      requires Configured()
      reads this
    {
      Written(files, stream, C(), base, numRotations) && Stored(disk, fileNames, files)
    }

    ghost predicate Valid()
      reads this
    {
      && Configured()
      && (started ==> InSession() && |files[0]| < maxFileSize)
      && (isOpen ==> started && currentBytesWritten == |files[0]|)
    }

    constructor (prefix: string, maxTotalLogSize: nat)
      requires maxTotalLogSize >= 4
      ensures Valid() && !isOpen && !started && numRotations == 0
      ensures this.maxTotalLogSize == maxTotalLogSize
      ensures var megabytes := maxTotalLogSize / 2 / 1048576;
              fileNames == Names(prefix, 1 + if megabytes > 2 then megabytes else 2)
      ensures maxFileSize == maxTotalLogSize / 2
    {
      this.maxTotalLogSize := maxTotalLogSize;
      disk, isOpen, started, base, stream, files := map[], false, false, 0, [], [];
      var numFiles := GetNumRotatingLogFiles(maxTotalLogSize) + 1;
      var names := MakeNames(prefix, numFiles);
      fileNames := names;
      maxFileSize, rotationIndex := maxTotalLogSize / 2, numFiles - 1;
      currentBytesWritten, numRotations := 0, 0;
      new;
      forall i, j | 0 <= i < j < numFiles ensures fileNames[i] != fileNames[j] {
        NamesDistinct(prefix, numFiles, i, j);
      }
    }

    /** Deletes the files of an earlier session and starts the first file.  The rotations that have
        been made are not forgotten. */
    method Open()
      requires Valid()
      modifies `disk, `isOpen, `currentBytesWritten, `started, `base, `stream, `files
      ensures Valid() && isOpen && started && stream == [] && base == numRotations
      ensures disk == map[fileNames[0] := []]
    {
      hide Written, SizesFor, RotationIndex, MaxFileSize;
      MaxFileSizePositive(maxTotalLogSize, numRotations);
      WrittenAtOpen(C(), numRotations);
      disk := map[fileNames[0] := []];
      isOpen, currentBytesWritten := true, 0;
      started, base, stream, files := true, numRotations, [], [[]];
    }

    method Close()
      requires Valid()
      modifies `isOpen, `currentBytesWritten
      ensures Valid() && !isOpen
    {
      isOpen, currentBytesWritten := false, 0;
    }

    /** Writes as much as fits in the current file, or as much as the file system takes, and
        rotates when the file is full.  When the file system takes nothing, the source adds the count
        that the caller had there before, and the layout survives exactly if that is zero. */
    method Write(data: seq<byte>, space: nat, count: nat) returns (result: StreamResult, written: nat)
      requires Valid()
      modifies this
      ensures isOpen == old(isOpen) && started == old(started) && base == old(base)
      ensures result == if old(isOpen) && (space > 0 || data == []) then Success else Error
      ensures result == Success ==>
                && written == Min(Min(|data|, space), old(maxFileSize) - old(currentBytesWritten))
                && stream == old(stream) + data[..written]
      ensures Valid() <==> result == Success || !old(isOpen) || count == 0
      ensures result == Error ==> written == count && stream == old(stream)
      ensures result == Error && !(old(isOpen) && old(currentBytesWritten) + count >= old(maxFileSize)) ==>
                && disk == old(disk) && files == old(files) && numRotations == old(numRotations)
                && currentBytesWritten == old(currentBytesWritten) + if old(isOpen) then count else 0
      ensures result == Error && old(isOpen) && old(currentBytesWritten) + count >= old(maxFileSize) ==>
                && files == Rotated(old(files), old(rotationIndex)) && Stored(disk, fileNames, files)
                && numRotations == old(numRotations) + 1 && currentBytesWritten == 0
    {
      written := count;
      if !isOpen {
        return Error, written;
      }
      hide Written, SizesFor, RotationIndex, MaxFileSize, Stored, Rotated;
      NotEmpty();
      var remaining := maxFileSize - currentBytesWritten;
      var writeLength := Min(|data|, remaining);
      if space == 0 && writeLength > 0 {
        result := Error;
        currentBytesWritten := currentBytesWritten + written;
      } else {
        result, written := Success, Min(writeLength, space);
        AppendToCurrent(data[..written]);
      }
      if currentBytesWritten >= maxFileSize {
        RotateFiles();
      }
    }

    lemma NotEmpty()
      requires Configured() && InSession()
      ensures |files| > 0
    {
    }

    ghost predicate Current()
      reads this
    {
      && Configured() && InSession() && |files| > 0
      && currentBytesWritten == |files[0]| <= maxFileSize
    }

    method AppendToCurrent(piece: seq<byte>)
      requires Current() && currentBytesWritten + |piece| <= maxFileSize
      modifies `disk, `currentBytesWritten, `stream, `files
      ensures Current() && stream == old(stream) + piece
      ensures currentBytesWritten == old(currentBytesWritten) + |piece|
    {
      hide Written, SizesFor, RotationIndex, Stored;
      AppendStored(disk, fileNames, files, piece);
      var file := fileNames[0];
      ghost var next := files[0 := files[0] + piece];
      disk := disk[file := disk[file] + piece];
      currentBytesWritten := currentBytesWritten + |piece|;
      WrittenAppended(files, stream, C(), base, numRotations, piece);
      stream, files := stream + piece, next;
    }

    /** Keeps the layout exactly if the current file is full. */
    method RotateFiles()
      requires isOpen && started && Configured() && InSession() && |files| > 0 && |files[0]| <= maxFileSize
      modifies this
      ensures isOpen && started && stream == old(stream) && base == old(base) && currentBytesWritten == 0
      ensures files == Rotated(old(files), old(rotationIndex)) && Stored(disk, fileNames, files)
      ensures numRotations == old(numRotations) + 1
      ensures Valid() <==> |old(files)[0]| == old(maxFileSize)
    {
      hide Written, SizesFor, RotationIndex, Stored;
      MaxFileSizePositive(maxTotalLogSize, numRotations);
      MaxFileSizePositive(maxTotalLogSize, numRotations + 1);
      if |files[0]| == maxFileSize {
        WrittenRotated(files, stream, C(), base, numRotations);
      } else {
        WrittenTooShort(files, stream, C(), base, numRotations, Rotated(files, rotationIndex));
      }
      currentBytesWritten := 0;
      MoveFiles();
      files := Rotated(files, rotationIndex);
      OnRotation();
    }

    /** Deletes the file at the rotation index, renames the newer ones and creates an empty one. */
    method MoveFiles()
      requires Configured() && Stored(disk, fileNames, files) && 0 < rotationIndex < |fileNames|
      modifies `disk
      ensures Stored(disk, fileNames, Rotated(files, rotationIndex))
    {
      hide Renaming, Stored, Moving, Rotated, SizesFor, RotationIndex;
      RenameStarts(disk, fileNames, files, rotationIndex);
      disk := disk - {fileNames[rotationIndex]};
      var i := rotationIndex;
      while i > 0
        invariant 0 <= i <= rotationIndex
        invariant Renaming(disk, fileNames, files, rotationIndex, i)
      {
        RenameStep(disk, fileNames, files, rotationIndex, i);
        if fileNames[i - 1] in disk {
          disk := disk[fileNames[i] := disk[fileNames[i - 1]]] - {fileNames[i - 1]};
        }
        i := i - 1;
      }
      RenameEnds(disk, fileNames, files, rotationIndex);
      disk := disk[fileNames[0] := []];
    }

    /** Smaller files after the first rotation; the first file stays from the last regular one on. */
    method OnRotation()
      requires maxTotalLogSize >= 4 && |fileNames| == C().rotating + 1
      requires rotationIndex == RotationIndex(C(), numRotations)
      modifies `numRotations, `maxFileSize, `rotationIndex
      ensures numRotations == old(numRotations) + 1
      ensures maxFileSize == if numRotations == 1 then C().later else old(maxFileSize)
      ensures rotationIndex == RotationIndex(C(), numRotations)
    {
      numRotations := numRotations + 1;
      if numRotations == 1 {
        maxFileSize := GetRotatingLogSize(maxTotalLogSize);
      } else if numRotations == |fileNames| - 1 {
        rotationIndex := rotationIndex - 1;
      }
    }

    /** What is on the disk is a function of the bytes written. */
    lemma LayoutHolds()
      requires Valid() && started
      ensures Layout(LaidFiles(files, base), stream, SessionSizes(C(), base)) && Stored(disk, fileNames, files)
    {
      WrittenLayout(files, stream, C(), base, numRotations);
    }
  }

  // ---------------------------------------------------------------- reading

  function Contents(disk: Directory, names: seq<string>): Files
    requires forall i | 0 <= i < |names| :: names[i] in disk
  {
    seq(|names|, i requires 0 <= i < |names| => disk[names[i]])
  }

  /** Reads a directory in the order of the sorted names, from the last one down. */
  class FileReader {
    const disk: Directory
    const fileNames: seq<string>
    var currentFileIndex: nat
    // Where the open file has been read to.
    var position: Option<nat>

    ghost predicate Valid()
      reads this
    {
      && (forall i | 0 <= i < |fileNames| :: fileNames[i] in disk)
      && (position.Some? ==> currentFileIndex < |fileNames|
                             && position.value <= |disk[fileNames[currentFileIndex]]|)
    }

    /** All bytes that have not been read yet. */
    ghost function Remaining(): seq<byte>
      requires Valid()
      reads this
    {
      if currentFileIndex >= |fileNames| then []
      else
        var files := Contents(disk, fileNames);
        files[currentFileIndex][if position.Some? then position.value else 0..] + ReadDown(files, currentFileIndex)
    }

    /** How many calls with a non-empty buffer can still succeed. */
    ghost function Calls(): nat
      requires Valid()
      reads this
    {
      if currentFileIndex >= |fileNames| then 0 else |Remaining()| + currentFileIndex + 1
    }

    constructor (disk: Directory, listing: seq<string>)
      requires Sorted(listing) && forall name :: name in listing <==> name in disk
      ensures Valid() && fileNames == listing && this.disk == disk
      ensures Remaining() == ReadDown(Contents(disk, listing), |listing|)
    {
      this.disk, fileNames, position := disk, listing, None;
      currentFileIndex := if |listing| > 0 then |listing| - 1 else 0;
    }

    /** Goes on with the next newer file. */
    method NextFile()
      requires Valid() && currentFileIndex < |fileNames|
      modifies this
      ensures Valid() && position == None
      ensures Remaining() == ReadDown(Contents(disk, fileNames), old(currentFileIndex))
      ensures Calls() < old(Calls())
    {
      position := None;
      if currentFileIndex == 0 {
        currentFileIndex := |fileNames|;
      } else {
        currentFileIndex := currentFileIndex - 1;
      }
    }

    /** Reads on in the current file, or moves on to the next newer one at its end.  A file that does
        not open is tried again, and one that cannot be read is given up; `openable` and `readable` say
        whether the file system lets it. */
    method Read(bufferLen: nat, openable: bool, readable: bool) returns (result: StreamResult, bytes: seq<byte>)
      requires Valid()
      modifies this
      ensures Valid() && |bytes| <= bufferLen
      ensures result == Eos <==> old(currentFileIndex) >= |fileNames|
      ensures result == Error <==> old(currentFileIndex) < |fileNames|
                                   && ((old(position).None? && !openable) || (bufferLen > 0 && !readable))
      ensures result != Error ==> old(Remaining()) == bytes + Remaining()
      ensures result == Success && bufferLen > 0 ==> Calls() < old(Calls())
      ensures result == Eos ==> Remaining() == []
      ensures result == Error ==> bytes == []
      ensures result == Error && old(position).None? && !openable ==> Remaining() == old(Remaining())
      ensures result == Error && (old(position).Some? || openable) ==>
                && Remaining() == ReadDown(Contents(disk, fileNames), old(currentFileIndex))
                && Calls() < old(Calls())
    {
      bytes := [];
      if currentFileIndex >= |fileNames| {
        return Eos, [];
      }
      result := Success;
      if position.None? {
        if !openable {
          return Error, [];
        }
        position := Some(0);
      }
      var file := disk[fileNames[currentFileIndex]];
      if bufferLen > 0 && (!readable || position.value == |file|) {
        result := if readable then Success else Error;
        NextFile();
      } else {
        var end := position.value + Min(bufferLen, |file| - position.value);
        bytes := file[position.value..end];
        Rejoined(file, position.value, end, ReadDown(Contents(disk, fileNames), currentFileIndex));
        position := Some(end);
      }
    }
  }

  lemma Rejoined(file: seq<byte>, from: nat, to: nat, rest: seq<byte>)
    requires from <= to <= |file|
    ensures file[from..] + rest == file[from..to] + (file[to..] + rest)
  {
  }

  /** A reader of the directory of a log sees its files, newest first, in whatever order the
      directory lists them. */
  lemma ReaderSeesFiles(prefix: string, numFiles: nat, disk: Directory, files: Files, listing: seq<string>)
    requires Stored(disk, Names(prefix, numFiles), files)
    requires Sorted(listing) && forall name :: name in listing <==> name in disk
    ensures forall i | 0 <= i < |listing| :: listing[i] in disk
    ensures |listing| == |files| && Contents(disk, listing) == files
  {
    var names := Names(prefix, numFiles);
    forall name ensures name in disk <==> name in names[..|files|] {
      if name in disk {
        var i :| 0 <= i < |names| && names[i] == name;
        assert Holds(disk, names[i], At(files, i));
      }
    }
    SortedListing(prefix, numFiles, |files|, listing);
    forall i | 0 <= i < |files| ensures disk[listing[i]] == files[i] {
      assert Holds(disk, names[i], At(files, i));
    }
  }

  /** The log as a whole: what a reader gets of everything written, in any number of calls. */
  lemma LogKeepsBothEnds(log: CallSessionFileRotatingStream, prefix: string, listing: seq<string>)
    returns (kept: nat)
    requires log.Valid() && log.started && log.fileNames == Names(prefix, |log.fileNames|)
    requires log.base == 0
    requires Sorted(listing) && forall name :: name in listing <==> name in log.disk
    ensures forall i | 0 <= i < |listing| :: listing[i] in log.disk
    ensures KeepsBothEnds(ReadDown(Contents(log.disk, listing), |listing|), log.stream, log.maxTotalLogSize, kept)
    ensures KeepsInNumbers(ReadDown(Contents(log.disk, listing), |listing|), log.stream, log.maxTotalLogSize, kept)
  {
    hide SizesFor, Layout, KeepsBothEnds, KeepsInNumbers, Stored, Contents;
    log.LayoutHolds();
    ReaderSeesFiles(prefix, |log.fileNames|, log.disk, log.files, listing);
    kept := Kept(log.files, log.stream, log.maxTotalLogSize);
    KeptInNumbers(ReadDown(log.files, |log.files|), log.stream, log.maxTotalLogSize, kept);
  }

  /** The same for a log that was opened again after a rotation: the beginning is kept only as long
      as everything is. */
  lemma ReopenedLogKeepsTheEnd(log: CallSessionFileRotatingStream, prefix: string, listing: seq<string>)
    requires log.Valid() && log.started && log.fileNames == Names(prefix, |log.fileNames|)
    requires log.base > 0
    requires Sorted(listing) && forall name :: name in listing <==> name in log.disk
    ensures forall i | 0 <= i < |listing| :: listing[i] in log.disk
    ensures var seen := ReadDown(Contents(log.disk, listing), |listing|);
            && KeepsTheEnd(seen, log.stream, log.maxTotalLogSize)
            && EndKeptInNumbers(seen, log.stream, log.maxTotalLogSize)
            && ((exists kept: nat :: KeepsBothEnds(seen, log.stream, log.maxTotalLogSize, kept)) <==>
                  |log.stream| < Times(log.C().rotating, log.C().later))
  {
    hide SizesFor, Layout, KeepsTheEnd, KeepsBothEnds, EndKeptInNumbers, Times, Stored, Contents;
    log.LayoutHolds();
    ReaderSeesFiles(prefix, |log.fileNames|, log.disk, log.files, listing);
    KeptReopened(log.files, log.stream, log.maxTotalLogSize);
    EndInNumbers(ReadDown(log.files, |log.files|), log.stream, log.maxTotalLogSize);
    BothEndsReopened(ReadDown(log.files, |log.files|), log.stream, log.maxTotalLogSize);
  }
}
