/** File-name arithmetic of the discovery step: the extension of a file name
    as pathlib computes it, and the joining of a directory path with a name. */
module Paths {

  /** Offset of the last `c` in `s`, or -1 when there is none (Python's str.rfind). */
  function RFind(s: string, c: char): (i: int)
    ensures -1 <= i < |s|
    ensures i == -1 <==> c !in s
    ensures i >= 0 ==> s[i] == c && c !in s[i + 1..]
  {
    if s == [] then -1
    else if s[|s| - 1] == c then |s| - 1
    else
      var init := s[..|s| - 1];
      var i := RFind(init, c);
      assert s == init + [s[|s| - 1]];
      assert i >= 0 ==> s[i + 1..] == init[i + 1..] + [s[|s| - 1]];
      i
  }

  /** `name[i..]` is a file extension: it starts with a dot that is neither
      the first nor the last character of the name, and no dot follows. */
  ghost predicate ExtensionAt(name: string, i: int) {
    0 < i < |name| - 1 && name[i] == '.' && '.' !in name[i + 1..]
  }

  /** The extension of a file name (pathlib's PurePath.suffix): everything from
      its last dot, or "" when it has no dot, or the last dot leads or ends
      the name. */
  function Suffix(name: string): string
  {
    var i := RFind(name, '.');
    if 0 < i < |name| - 1 then name[i..] else ""
  }

  /** A non-empty suffix is the one extension of the name; an empty suffix
      means the name has no extension. */
  lemma SuffixIsExtension(name: string)
    ensures var r := Suffix(name);
      && (r != "" ==> ExtensionAt(name, |name| - |r|) && r == name[|name| - |r|..])
      && (r == "" ==> forall i :: 0 <= i < |name| ==> !ExtensionAt(name, i))
  {
    var i := RFind(name, '.');
    if !(0 < i < |name| - 1) {
      assert forall j :: i < j < |name| ==> name[j] != '.' by {
        if i >= 0 {
          forall j | i < j < |name|
            ensures name[j] != '.'
          {
            assert name[j] == name[i + 1..][j - i - 1];
          }
        }
      }
      assert forall j :: 0 <= j < i && name[j] == '.' ==> name[j + 1..][i - j - 1] == '.';
    }
  }

  /** A non-empty extension is a dot followed by at least one character, none
      of them a dot. */
  lemma SuffixShape(name: string)
    ensures var r := Suffix(name);
      r == "" || (|r| >= 2 && r[0] == '.' && '.' !in r[1..] && |r| < |name|)
  {
    SuffixIsExtension(name);
    var r := Suffix(name);
    if r != "" {
      var i := |name| - |r|;
      assert r[1..] == name[i + 1..];
    }
  }

  /** `dir` joined with `name` (os.path.join for a relative name): one
      separator between them unless `dir` is empty or already ends in one. */
  function JoinPath(dir: string, name: string): string
  {
    if dir == [] || dir[|dir| - 1] == '/' then dir + name else dir + "/" + name
  }

  /** The path string of `parts` below `root`: root/part1/.../partN. */
  function PathString(root: string, parts: seq<string>): string
  {
    if parts == [] then root
    else JoinPath(PathString(root, parts[..|parts| - 1]), parts[|parts| - 1])
  }
}
