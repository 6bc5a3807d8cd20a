/** The `System.IO.Path` operations the scanner and the orchestrator use, on
    Linux paths (the only directory separator is '/'). */
module Paths {
  import opened Text

  const Separator: char := '/'

  /** The position of the last `c` in `s`, or -1 (`string.LastIndexOf`). */
  function LastIndexOf(s: string, c: char): (r: int)
    ensures -1 <= r < |s|
    ensures r >= 0 ==> s[r] == c
    ensures forall j :: r < j < |s| ==> s[j] != c
  {
    if |s| == 0 then -1
    else if s[|s| - 1] == c then |s| - 1
    else LastIndexOf(s[..|s| - 1], c)
  }

  /** `Path.GetFileName`: what follows the last separator. */
  function FileName(path: string): (r: string)
    ensures Separator !in r
  {
    var i := LastIndexOf(path, Separator);
    path[i + 1..]
  }

  /** `Path.GetFileNameWithoutExtension`: the file name up to its last '.'. */
  function FileNameWithoutExtension(path: string): string {
    var name := FileName(path);
    var i := LastIndexOf(name, '.');
    if i < 0 then name else name[..i]
  }

  /** `Path.GetExtension`: the file name from its last '.', or empty when the
      name has no '.' or ends with it. */
  function Extension(path: string): string {
    var name := FileName(path);
    var i := LastIndexOf(name, '.');
    if i < 0 || i == |name| - 1 then "" else name[i..]
  }

  /** `Path.GetDirectoryName` for a path naming a file: everything before the
      last separator ("/" for a file in the root, "" for a bare name). */
  function DirectoryName(path: string): string {
    var i := LastIndexOf(path, Separator);
    if i < 0 then "" else if i == 0 then [Separator] else path[..i]
  }

  /** `Path.Combine(dir, name)` for a relative `name`. */
  function Combine(dir: string, name: string): string {
    if |dir| == 0 then name
    else if dir[|dir| - 1] == Separator then dir + name
    else dir + [Separator] + name
  }

  /** The path of a file called `name` in the directory holding `path`. */
  function Sibling(path: string, name: string): string {
    Combine(DirectoryName(path), name)
  }

  /** `Path.ChangeExtension(path, ext)` for an `ext` that starts with '.'. */
  function ChangeExtension(path: string, ext: string): string {
    var name := FileName(path);
    var i := LastIndexOf(name, '.');
    var dirPart := path[..|path| - |name|];
    if i < 0 then path + ext else dirPart + name[..i] + ext
  }

  /** A file name splits into its base name and its extension. */
  lemma BaseAndExtension(path: string)
    ensures Extension(path) != "" ==>
      FileNameWithoutExtension(path) + Extension(path) == FileName(path)
    ensures !('.' in FileName(path)) ==>
      Extension(path) == "" && FileNameWithoutExtension(path) == FileName(path)
  {
    var name := FileName(path);
    var i := LastIndexOf(name, '.');
    if i >= 0 && i != |name| - 1 {
      assert name[..i] + name[i..] == name;
    }
    if '.' !in name {
      assert i < 0;
    }
  }

  /** A sibling lies in the same directory and carries the given name, so the
      subtitle file written next to a video is the one the scanner looks for. */
  lemma {:induction false} SiblingPlacement(path: string, name: string)
    requires |name| > 0 && Separator !in name
    ensures FileName(Sibling(path, name)) == name
  {
    var p := Sibling(path, name);
    var dir := DirectoryName(path);
    if |dir| > 0 {
      LastSeparatorAfterPrefix(p, |p| - |name| - 1, name);
    } else {
      assert p == name;
      NoSeparatorNoIndex(name);
    }
  }

  lemma NoSeparatorNoIndex(s: string)
    requires Separator !in s
    ensures LastIndexOf(s, Separator) == -1
  {
  }

  lemma LastSeparatorAfterPrefix(p: string, k: int, name: string)
    requires 0 <= k < |p| && p[k] == Separator && p[k + 1..] == name
    requires Separator !in name
    ensures LastIndexOf(p, Separator) == k
  {
  }

  // ---------------------------------------------------------------------
  // Splitting a path into its segments

  /** The position of the first `c` in `s`, or -1 (`string.IndexOf`). */
  function IndexOf(s: string, c: char): (r: int)
    ensures -1 <= r < |s|
    ensures r >= 0 ==> s[r] == c
    ensures forall j :: 0 <= j < |s| && (r < 0 || j < r) ==> s[j] != c
  {
    if |s| == 0 then -1
    else if s[0] == c then 0
    else
      var r := IndexOf(s[1..], c);
      if r < 0 then -1 else r + 1
  }

  /** `s.Split(c)`: the runs of `s` between occurrences of `c`, empty runs
      included, so there is always at least one. */
  function Split(s: string, c: char): (r: seq<string>)
    ensures |r| >= 1
    ensures forall i :: 0 <= i < |r| ==> c !in r[i]
    decreases |s|
  {
    var i := IndexOf(s, c);
    if i < 0 then
      assert forall j :: 0 <= j < |s| ==> s[j] != c;
      [s]
    else
      var head := s[..i];
      assert forall j :: 0 <= j < |head| ==> head[j] != c;
      var tail := Split(s[i + 1..], c);
      var r := [head] + tail;
      assert forall k :: 1 <= k < |r| ==> r[k] == tail[k - 1];
      r
  }

  /** Joining the segments with the separator gives the path back. */
  lemma {:induction false} JoinSplit(s: string, c: char)
    ensures Join(Split(s, c), [c]) == s
    decreases |s|
  {
    var i := IndexOf(s, c);
    if i >= 0 {
      var rest := Split(s[i + 1..], c);
      JoinSplit(s[i + 1..], c);
      SplitFirst(s, c);
      JoinCons(s[..i], rest, [c]);
      assert s == s[..i] + [c] + s[i + 1..];
    }
  }

  /** When `c` occurs, the first segment runs up to its first occurrence and
      the rest is the split of what follows it. */
  lemma SplitFirst(s: string, c: char)
    requires IndexOf(s, c) >= 0
    ensures Split(s, c) == [s[..IndexOf(s, c)]] + Split(s[IndexOf(s, c) + 1..], c)
  {
  }

  lemma JoinCons(head: string, rest: seq<string>, sep: string)
    requires |rest| >= 1
    ensures Join([head] + rest, sep) == head + sep + Join(rest, sep)
  {
    var parts := [head] + rest;
    assert parts[0] == head && parts[1..] == rest;
  }

  /** Splitting segments that were joined with a separator they do not
      contain gives the segments back. */
  lemma {:induction false} SplitJoin(parts: seq<string>, c: char)
    requires |parts| >= 1
    requires forall i :: 0 <= i < |parts| ==> c !in parts[i]
    ensures Split(Join(parts, [c]), c) == parts
  {
    var s := Join(parts, [c]);
    if |parts| == 1 {
      NoCharNoIndex(parts[0], c);
    } else {
      var tail := Join(parts[1..], [c]);
      JoinCons(parts[0], parts[1..], [c]);
      assert [parts[0]] + parts[1..] == parts;
      FirstAfterPrefix(parts[0], c, tail);
      assert s[|parts[0]| + 1..] == tail;
      assert s[..|parts[0]|] == parts[0];
      SplitJoin(parts[1..], c);
      SplitFirst(s, c);
    }
  }

  lemma NoCharNoIndex(s: string, c: char)
    requires c !in s
    ensures IndexOf(s, c) == -1
  {
    if |s| > 0 {
      assert c !in s[1..];
      NoCharNoIndex(s[1..], c);
    }
  }

  lemma {:induction false} FirstAfterPrefix(a: string, c: char, b: string)
    requires c !in a
    ensures IndexOf(a + [c] + b, c) == |a|
  {
    if |a| > 0 {
      assert (a + [c] + b)[1..] == a[1..] + [c] + b;
      FirstAfterPrefix(a[1..], c, b);
    }
  }
}
