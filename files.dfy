/** The file-name tests of the shell's `cloc` command: hidden entries are skipped, and
    a file is counted only under the extension it ends with. */
module FileFilters {

  /** `is_dotfile(name)`: the first character of the name is a dot. On the empty
      name the C code reads the terminating NUL, so the answer is false. */
  function IsDotfile(name: string): (r: bool)
    ensures r ==> name != []
  {
    name != [] && name[0] == '.'
  }

  /** A name is a dotfile exactly when it is a dot followed by anything. */
  lemma DotfileIffDotPrefix(name: string)
    ensures IsDotfile(name) <==> exists rest :: name == ['.'] + rest
  {
    if IsDotfile(name) {
      assert name == ['.'] + name[1..];
    }
  }

  /** The test `count_lines` starts with: the last `|ext|` characters of the path are
      the extension. When the extension is longer than the path the C code compares
      from before the start of the string; here that is no match. */
  function HasExtension(path: string, ext: string): (r: bool)
    ensures r ==> |ext| <= |path|
  {
    |ext| <= |path| && path[|path| - |ext|..] == ext
  }

  /** Every name ending in the extension passes the test, and every path that passes
      is its stem followed by the extension. */
  lemma ExtensionIsSuffix(stem: string, path: string, ext: string)
    ensures HasExtension(stem + ext, ext)
    ensures HasExtension(path, ext) ==> path == path[..|path| - |ext|] + ext
  {
    assert (stem + ext)[|stem|..] == ext;
  }
}
