/** The shell's directory history: a fixed array of `MAX_DIRS` slots holding the
    directories most recently changed to, the newest first. */
module DirHistory {

  const MAX_DIRS: nat := 10

  /** The name stored in place of `..`. */
  const PROJECT_DIR: string := "project-1---shell-bisey"

  /** What `add_dir` stores for the directory argument. */
  function Stored(dir: string): (s: string)
    ensures dir != ".." ==> s == dir
  {
    if dir == ".." then PROJECT_DIR else dir
  }

  /** The history after adding `dir`: the stored name in front, the old entries
      behind it, and the oldest entry dropped when the history was full. */
  function Pushed(entries: seq<string>, dir: string): (r: seq<string>)
    requires |entries| <= MAX_DIRS
    ensures |r| == if |entries| == MAX_DIRS then MAX_DIRS else |entries| + 1
    ensures r[0] == Stored(dir)
    ensures forall i :: 1 <= i < |r| ==> r[i] == entries[i - 1]
  {
    var kept := if |entries| == MAX_DIRS then entries[..MAX_DIRS - 1] else entries;
    [Stored(dir)] + kept
  }

  /** The history after adding each directory of `dirs` in turn to an empty one. */
  function AddAll(dirs: seq<string>): (h: seq<string>)
    ensures |h| <= MAX_DIRS
  {
    if dirs == [] then [] else Pushed(AddAll(dirs[..|dirs| - 1]), dirs[|dirs| - 1])
  }

  /** `h` holds the last `MAX_DIRS` directories of `dirs` (or all of them), the most
      recent first. */
  ghost predicate MostRecentFirst(h: seq<string>, dirs: seq<string>)
  {
    && |h| == (if |dirs| < MAX_DIRS then |dirs| else MAX_DIRS)
    && forall i :: 0 <= i < |h| ==> h[i] == Stored(dirs[|dirs| - 1 - i])
  }

  /** Whatever the order of additions, the history holds the last `MAX_DIRS`
      directories added (or all of them), the most recent first. */
  lemma {:induction false} HistoryIsMostRecentFirst(dirs: seq<string>)
    ensures MostRecentFirst(AddAll(dirs), dirs)
    decreases |dirs|
  {
    if dirs != [] {
      var init := dirs[..|dirs| - 1];
      HistoryIsMostRecentFirst(init);
      PushKeepsMostRecentFirst(AddAll(init), init, dirs[|dirs| - 1]);
      assert init + [dirs[|dirs| - 1]] == dirs;
    }
  }

  lemma PushKeepsMostRecentFirst(h: seq<string>, dirs: seq<string>, dir: string)
    requires MostRecentFirst(h, dirs)
    ensures MostRecentFirst(Pushed(h, dir), dirs + [dir])
  {
    forall i | 0 <= i < |Pushed(h, dir)|
      ensures Pushed(h, dir)[i] == Stored((dirs + [dir])[|dirs| - i])
    {
      if i > 0 {
        assert (dirs + [dir])[|dirs| - i] == dirs[|dirs| - 1 - (i - 1)];
      }
    }
  }

  /** The global `dirs` array and its fill count `num_dirs`. */
  class History {
    const dirs: array<string>
    var numDirs: nat

    ghost predicate Valid()
      reads this
    {
      dirs.Length == MAX_DIRS && numDirs <= MAX_DIRS
    }

    /** The directories in the history, newest first. */
    function Entries(): (e: seq<string>)
      reads this, dirs
      requires Valid()
      ensures |e| == numDirs
    {
      dirs[..numDirs]
    }

    /** The history at program start: `MAX_DIRS` empty slots. */
    constructor()
      ensures Valid() && fresh(dirs) && Entries() == []
    {
      dirs := new string[MAX_DIRS](_ => "");
      numDirs := 0;
    }

    /** `add_dir(dir)`: when full, drop the last entry; shift the others up one slot;
        store the new directory in slot 0. */
    method AddDir(dir: string)
      requires Valid()
      modifies this, dirs
      ensures Valid()
      ensures Entries() == Pushed(old(Entries()), dir)
    {
      if numDirs == MAX_DIRS {
        numDirs := numDirs - 1;
      }
      ghost var kept := dirs[..numDirs];
      var i := numDirs;
      while i > 0
        modifies dirs
        invariant 0 <= i <= numDirs < MAX_DIRS
        invariant forall j :: 0 <= j < i ==> dirs[j] == kept[j]
        invariant forall j :: i < j <= numDirs ==> dirs[j] == kept[j - 1]
        decreases i
      {
        dirs[i] := dirs[i - 1];
        i := i - 1;
      }
      dirs[0] := Stored(dir);
      numDirs := numDirs + 1;
      assert Entries() == [Stored(dir)] + kept;
    }
  }

  /** Adding directories one after another to a fresh history leaves the most recent
      ones first. */
  method AddEach(dirs: seq<string>) returns (h: History)
    ensures fresh(h) && h.Valid() && h.Entries() == AddAll(dirs)
  {
    h := new History();
    var k := 0;
    while k < |dirs|
      invariant k <= |dirs| && fresh(h) && fresh(h.dirs) && h.Valid()
      invariant h.Entries() == AddAll(dirs[..k])
    {
      h.AddDir(dirs[k]);
      assert dirs[..k + 1][..k] == dirs[..k];
      k := k + 1;
    }
    assert dirs[..k] == dirs;
  }
}
