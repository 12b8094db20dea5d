/** Where a storage server keeps its bytes, as string functions. */
module Paths {

  function FilePath(root: string, name: string): string {
    root + "/files/" + name
  }

  function UndoPath(root: string, name: string): string {
    root + "/undo/" + name + ".undo.json"
  }

  function CheckpointDir(root: string, name: string): string {
    root + "/checkpoints/" + name
  }

  function CheckpointPath(root: string, name: string, tag: string): string {
    CheckpointDir(root, name) + "/" + tag + ".chk"
  }

  predicate IsTagCharacter(c: char) {
    'a' <= c <= 'z' || 'A' <= c <= 'Z' || '0' <= c <= '9' || c == '-' || c == '_'
  }

  predicate IsValidTag(tag: string) {
    tag != "" && forall k :: 0 <= k < |tag| ==> IsTagCharacter(tag[k])
  }

  method CheckTag(tag: string) returns (valid: bool)
    ensures valid == IsValidTag(tag)
  {
    if tag == "" {
      return false;
    }
    for p := 0 to |tag|
      invariant forall k :: 0 <= k < p ==> IsTagCharacter(tag[k])
    {
      var c := tag[p];
      if !('a' <= c <= 'z' || 'A' <= c <= 'Z' || '0' <= c <= '9' || c == '-' || c == '_') {
        return false;
      }
    }
    return true;
  }

  /** The three kinds of path never meet: they differ right after the root. */
  lemma {:induction false} KindsDiffer(root: string, a: string, b: string, c: string, tag: string)
    ensures FilePath(root, a) != UndoPath(root, b)
    ensures FilePath(root, a) != CheckpointPath(root, c, tag)
    ensures UndoPath(root, b) != CheckpointPath(root, c, tag)
  {
    var n := |root| + 1;
    assert FilePath(root, a)[n] == 'f' && UndoPath(root, b)[n] == 'u';
    assert CheckpointPath(root, c, tag)[n] == 'c';
  }

  lemma {:induction false} NamesDiffer(root: string, a: string, b: string)
    requires FilePath(root, a) == FilePath(root, b) || UndoPath(root, a) == UndoPath(root, b)
    ensures a == b
  {
    var f, u := |root + "/files/"|, |root + "/undo/"|;
    assert FilePath(root, a)[f..] == a && FilePath(root, b)[f..] == b;
    assert UndoPath(root, a)[u..|UndoPath(root, a)| - 10] == a;
    assert UndoPath(root, b)[u..|UndoPath(root, b)| - 10] == b;
  }

  /** Different checkpoints have different paths: a valid tag holds no slash, so the last slash splits the path. */
  lemma {:induction false} CheckpointsDiffer(root: string, a: string, s: string, b: string, t: string)
    requires IsValidTag(s) && IsValidTag(t)
    requires CheckpointPath(root, a, s) == CheckpointPath(root, b, t)
    ensures a == b && s == t
  {
    var p := CheckpointPath(root, a, s);
    var m, n := |CheckpointDir(root, a)|, |CheckpointDir(root, b)|;
    assert p[m] == '/' && p[n] == '/';
    assert forall k :: m < k < |p| - 4 ==> p[k] == s[k - m - 1];
    assert forall k :: n < k < |p| - 4 ==> p[k] == t[k - n - 1];
    assert !IsTagCharacter('/');
    assert m == n;
    assert p[..m] == CheckpointDir(root, a) && p[..n] == CheckpointDir(root, b);
    var c := |root + "/checkpoints/"|;
    assert p[..m][c..] == a && p[..n][c..] == b;
    assert p[m + 1..|p| - 4] == s && p[n + 1..|p| - 4] == t;
  }
}
