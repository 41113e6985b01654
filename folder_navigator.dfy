/**
 * FolderNavigator: the sorted list of image files in the current folder and
 * the position of the current file in it. The directory scan, the existence
 * test and the outcome of deleting or renaming on disk are inputs.
 */
module FolderNavigator {

  import opened Paths
  import opened Sequences
  import Geometry

  /** The filename of every entry, in list order. */
  function Filenames(files: seq<Path>): (names: seq<Path>)
    ensures |names| == |files|
    ensures forall i :: 0 <= i < |files| ==> names[i] == Filename(files[i])
  {
    seq(|files|, i requires 0 <= i < |files| => Filename(files[i]))
  }

  /** The position of the first entry whose filename is name, or |files| when none has it. */
  function FirstFilenameMatch(files: seq<Path>, name: Path): (i: nat)
    ensures i <= |files|
    ensures i < |files| ==> Filename(files[i]) == name
    ensures forall j :: 0 <= j < i ==> Filename(files[j]) != name
  {
    FirstIndex(Filenames(files), name)
  }

  /** The n entries before index, nearest first, collected one at a time. */
  function Before(files: seq<Path>, index: nat, n: nat): (r: seq<Path>)
    requires n <= index && (n == 0 || index <= |files|)
    ensures |r| == n
  {
    if n == 0 then [] else Before(files, index, n - 1) + [files[index - n]]
  }

  /** The n entries after index, in list order, collected one at a time. */
  function After(files: seq<Path>, index: nat, n: nat): (r: seq<Path>)
    requires n == 0 || index + n < |files|
    ensures |r| == n
  {
    if n == 0 then [] else After(files, index, n - 1) + [files[index + n]]
  }

  /** Entry k of Before is the (k+1)-th entry before index. */
  lemma {:induction false} BeforeAt(files: seq<Path>, index: nat, n: nat)
    requires n <= index && (n == 0 || index <= |files|)
    ensures forall k :: 0 <= k < n ==> Before(files, index, n)[k] == files[index - 1 - k]
  {
    if n > 0 {
      BeforeAt(files, index, n - 1);
    }
  }

  /** Entry k of After is the (k+1)-th entry after index. */
  lemma {:induction false} AfterAt(files: seq<Path>, index: nat, n: nat)
    requires n == 0 || index + n < |files|
    ensures forall k :: 0 <= k < n ==> After(files, index, n)[k] == files[index + 1 + k]
  {
    if n > 0 {
      AfterAt(files, index, n - 1);
    }
  }

  /** The up to count entries before index, nearest first. */
  function Predecessors(files: seq<Path>, index: nat, count: nat): (r: seq<Path>)
    requires count == 0 || index <= |files|
    ensures |r| == Geometry.MinInt(count, index)
  {
    Before(files, index, Geometry.MinInt(count, index))
  }

  /** The number of entries after index that a window of count takes. */
  function SuccessorCount(files: seq<Path>, index: nat, count: nat): (n: nat)
    ensures n <= count && (n == 0 || index + n < |files|)
    ensures index + 1 < |files| ==> n == Geometry.MinInt(count, |files| - index - 1)
    ensures index + 1 >= |files| ==> n == 0
  {
    if index + 1 < |files| then Geometry.MinInt(count, |files| - index - 1) else 0
  }

  /** The up to count entries after index, in list order. */
  function Successors(files: seq<Path>, index: nat, count: nat): (r: seq<Path>)
    ensures |r| == SuccessorCount(files, index, count)
  {
    After(files, index, SuccessorCount(files, index, count))
  }

  /**
   * The window holds up to count entries on each side: the nearest
   * predecessors first, then the successors in list order. It draws only on
   * the list and leaves out the current entry when the list has no duplicates.
   */
  lemma AdjacentWithin(files: seq<Path>, index: nat, count: nat)
    requires count == 0 || index <= |files|
    ensures var before := Predecessors(files, index, count);
      var w := before + Successors(files, index, count);
      |w| <= 2 * count &&
      (forall k :: 0 <= k < |before| ==> w[k] == files[index - 1 - k]) &&
      (forall k :: |before| <= k < |w| ==> w[k] == files[index + 1 + (k - |before|)]) &&
      (forall k :: 0 <= k < |w| ==> w[k] in files) &&
      (NoDuplicates(files) && index < |files| ==> files[index] !in w)
  {
    var before := Predecessors(files, index, count);
    var w := before + Successors(files, index, count);
    BeforeAt(files, index, Geometry.MinInt(count, index));
    AfterAt(files, index, SuccessorCount(files, index, count));
    forall k | 0 <= k < |w| ensures w[k] in files && (NoDuplicates(files) && index < |files| ==> w[k] != files[index]) {
      if k < |before| {
        assert w[k] == files[index - 1 - k];
      } else {
        assert w[k] == files[index + 1 + (k - |before|)];
      }
    }
  }

  /** The list and the position, as one value. */
  datatype NavigatorState = NavigatorState(files: seq<Path>, index: nat, folder: Path)

  /**
   * The state SetCurrentFile leaves: nothing changes for a missing file;
   * otherwise the folder is the file's parent, the list is the folder's scan
   * and the index moves to the first entry with the file's name, if any.
   */
  function CurrentFileSet(s: NavigatorState, filePath: Path, fileExists: bool, scanned: seq<Path>): (r: NavigatorState)
    ensures !fileExists ==> r == s
    ensures fileExists ==> r.files == scanned && r.folder == ParentPath(filePath)
  {
    if !fileExists then s
    else
      var m := FirstFilenameMatch(scanned, Filename(filePath));
      NavigatorState(scanned, if m < |scanned| then m else s.index, ParentPath(filePath))
  }

  class Navigator {
    var files: seq<Path>     // the supported images of the folder, sorted without regard to case
    var index: nat           // may lie past the end: SetCurrentFile keeps it when the file is not listed
    var folder: Path

    function State(): NavigatorState
      reads this
    {
      NavigatorState(files, index, folder)
    }

    constructor()
      ensures State() == NavigatorState([], 0, "")
    {
      files := [];
      index := 0;
      folder := "";
    }

    /** GetCurrentFilePath: the entry at the index, or "" when the index is past the end. */
    function CurrentFilePath(): (r: Path)
      reads this
      ensures index < |files| ==> r == files[index] && r in files
      ensures |files| <= index ==> r == ""
    {
      if index < |files| then files[index] else ""
    }

    /**
     * SetCurrentFile: when the file exists, remember its folder, take the
     * folder's listing and move to the first entry with the same filename;
     * with no such entry the index is left as it was.
     */
    method SetCurrentFile(filePath: Path, fileExists: bool, scanned: seq<Path>)
      modifies this
      ensures !fileExists ==> State() == old(State())
      ensures fileExists ==> folder == ParentPath(filePath) && files == scanned
      ensures fileExists ==>
        var m := FirstFilenameMatch(scanned, Filename(filePath));
        index == if m < |scanned| then m else old(index)
      ensures fileExists && (exists j :: 0 <= j < |scanned| && Filename(scanned[j]) == Filename(filePath)) ==>
        index < |files| && Filename(files[index]) == Filename(filePath)
      ensures State() == CurrentFileSet(old(State()), filePath, fileExists, scanned)
    {
      if !fileExists {
        return;
      }
      folder := ParentPath(filePath);
      files := scanned;
      var filename := Filename(filePath);
      ghost var m := FirstFilenameMatch(scanned, filename);
      for i := 0 to |files|
        invariant files == scanned && folder == ParentPath(filePath)
        invariant i <= m
        invariant index == old(index)
      {
        if Filename(files[i]) == filename {
          index := i;
          return;
        }
        assert i != m;
      }
    }

    /** GoToNext: advance when there is a next entry. */
    method GoToNext() returns (moved: bool)
      modifies this
      ensures moved <==> old(index) + 1 < |files|
      ensures moved ==> State() == old(State()).(index := old(index) + 1)
      ensures !moved ==> State() == old(State())
    {
      if index + 1 < |files| {
        index := index + 1;
        return true;
      }
      return false;
    }

    /** GoToPrevious: step back when not at the start. */
    method GoToPrevious() returns (moved: bool)
      modifies this
      ensures moved <==> old(index) > 0
      ensures moved ==> State() == old(State()).(index := old(index) - 1)
      ensures !moved ==> State() == old(State())
    {
      if index > 0 {
        index := index - 1;
        return true;
      }
      return false;
    }

    /** GoToFirst: jump to entry 0 unless the list is empty or already there. */
    method GoToFirst() returns (moved: bool)
      modifies this
      ensures moved <==> |files| > 0 && old(index) != 0
      ensures moved ==> State() == old(State()).(index := 0)
      ensures !moved ==> State() == old(State())
    {
      if |files| > 0 && index != 0 {
        index := 0;
        return true;
      }
      return false;
    }

    /** GoToLast: jump to the last entry unless the list is empty or already there. */
    method GoToLast() returns (moved: bool)
      modifies this
      ensures moved <==> |files| > 0 && old(index) != |files| - 1
      ensures moved ==> State() == old(State()).(index := |files| - 1)
      ensures !moved ==> State() == old(State())
    {
      if |files| > 0 && index != |files| - 1 {
        index := |files| - 1;
        return true;
      }
      return false;
    }

    /** GoToIndex: move to i when it names an entry. */
    method GoToIndex(i: nat) returns (moved: bool)
      modifies this
      ensures moved <==> i < |files|
      ensures moved ==> State() == old(State()).(index := i) && CurrentFilePath() == files[i]
      ensures !moved ==> State() == old(State())
    {
      if i < |files| {
        index := i;
        return true;
      }
      return false;
    }

    /**
     * GetAdjacentFiles: up to count predecessors, nearest first, then up to
     * count successors in list order; never the current entry itself when
     * the list has no duplicates. Reading past the end is undefined in the
     * source, hence the precondition for an index beyond the list.
     */
    method GetAdjacentFiles(count: nat) returns (result: seq<Path>)
      requires |files| == 0 || count == 0 || index <= |files|
      ensures |files| == 0 ==> result == []
      ensures |files| > 0 ==> result == Predecessors(files, index, count) + Successors(files, index, count)
    {
      result := [];
      if |files| == 0 {
        return;
      }
      var i := 1;
      while i <= count && index >= i
        invariant 1 <= i <= count + 1 && i <= index + 1
        invariant result == Before(files, index, i - 1)
      {
        result := result + [files[index - i]];
        i := i + 1;
      }
      assert i - 1 == Geometry.MinInt(count, index);
      ghost var before := result;
      i := 1;
      while i <= count && index + i < |files|
        invariant 1 <= i <= count + 1
        invariant i == 1 || index + i - 1 < |files|
        invariant result == before + After(files, index, i - 1)
      {
        result := result + [files[index + i]];
        i := i + 1;
      }
      assert i - 1 == SuccessorCount(files, index, count);
    }

    /**
     * DeleteCurrentFile: when the recycle-bin move succeeds, drop the current
     * entry and step back only if the index fell off the end.
     */
    method DeleteCurrentFile(deleted: bool) returns (ok: bool)
      requires |files| == 0 || index < |files|
      modifies this
      ensures ok <==> |old(files)| > 0 && deleted
      ensures !ok ==> State() == old(State())
      ensures ok ==> files == old(files)[..old(index)] + old(files)[old(index) + 1..]
      ensures ok ==> index == if old(index) == |files| && old(index) > 0 then old(index) - 1 else old(index)
      ensures ok ==> folder == old(folder)
      ensures |files| > 0 ==> index < |files|
    {
      if |files| == 0 {
        return false;
      }
      if !deleted {
        return false;
      }
      files := files[..index] + files[index + 1..];
      if index >= |files| && index > 0 {
        index := index - 1;
      }
      return true;
    }

    /**
     * RenameCurrentFile: when the rename on disk succeeds, the current entry
     * becomes the parent folder / the new name; an absolute new name (or one
     * on another drive) replaces the path outright.
     */
    method RenameCurrentFile(newName: Path, renamed: bool) returns (ok: bool)
      requires |files| == 0 || index < |files|
      modifies this
      ensures ok <==> |old(files)| > 0 && renamed
      ensures !ok ==> State() == old(State())
      ensures ok ==> State() == old(State()).(files := old(files)[old(index) := Join(ParentPath(old(files)[old(index)]), newName)])
      ensures ok ==> Filename(CurrentFilePath()) == Filename(newName)
      ensures ok && IsAbsolute(newName) ==> CurrentFilePath() == newName
      ensures ok && NoSeparator(newName) && RootName(newName) == [] ==> Filename(CurrentFilePath()) == newName
    {
      if |files| == 0 {
        return false;
      }
      var newPath := Join(ParentPath(files[index]), newName);
      if !renamed {
        return false;
      }
      FilenameOfJoin(ParentPath(files[index]), newName);
      if NoSeparator(newName) && RootName(newName) == [] {
        PlainNameOfJoin(ParentPath(files[index]), newName);
      }
      files := files[index := newPath];
      assert CurrentFilePath() == newPath;
      return true;
    }

    /**
     * Refresh: re-read the folder and find the current path again; when it
     * has gone, keep the index but pull it back onto the list.
     */
    method Refresh(scanned: seq<Path>)
      modifies this
      ensures old(folder) == "" ==> State() == old(State())
      ensures old(folder) != "" ==> files == scanned && folder == old(folder)
      ensures old(folder) != "" ==>
        var m := FirstIndex(scanned, old(CurrentFilePath()));
        index == if m < |scanned| then m
                 else if old(index) >= |scanned| && |scanned| > 0 then |scanned| - 1
                 else old(index)
      ensures old(folder) != "" && |files| > 0 ==> index < |files|
      ensures old(folder) != "" && old(CurrentFilePath()) in scanned ==> CurrentFilePath() == old(CurrentFilePath())
    {
      if folder == "" {
        return;
      }
      var currentFile := CurrentFilePath();
      files := scanned;
      ghost var m := FirstIndex(scanned, currentFile);
      for i := 0 to |files|
        invariant files == scanned && folder == old(folder)
        invariant i <= m
        invariant index == old(index)
      {
        if files[i] == currentFile {
          index := i;
          return;
        }
        assert i != m;
      }
      if index >= |files| && |files| > 0 {
        index := |files| - 1;
      }
    }
  }
}
