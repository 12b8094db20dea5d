/** Paths as the file system resolves them. */
module ResolvedPaths {
  // Lists of parts, "." and ".." taken out: which names keep them apart.

  import opened Paths

  /** A path, or a file name, cut at its slashes. */
  type Parts = seq<string>

  predicate IsName(part: string) {
    part != "" && part != "." && part != ".."
  }

  /** Every part is a name: not empty, "." or "..". */
  predicate Proper(name: Parts) {
    name != [] && forall i :: 0 <= i < |name| ==> IsName(name[i])
  }

  function Into(at: Parts, part: string): Parts {
    if IsName(part) then at + [part] else if part == ".." && at != [] then at[..|at| - 1] else at
  }

  /** Follow the parts from a directory. */
  function Resolve(at: Parts, parts: Parts): Parts
    decreases |parts|
  {
    if parts == [] then at else Resolve(Into(at, parts[0]), parts[1..])
  }

  function Suffixed(name: Parts, suffix: string): Parts
    requires name != []
  {
    name[..|name| - 1] + [name[|name| - 1] + suffix]
  }

  /** Where the bytes of a file, its undo slot and a checkpoint really are, below the resolved root. */
  function FileAt(root: Parts, name: Parts): Parts {
    Resolve(root + ["files"], name)
  }

  function UndoAt(root: Parts, name: Parts): Parts
    requires name != []
  {
    Resolve(root + ["undo"], Suffixed(name, ".undo.json"))
  }

  function CheckpointAt(root: Parts, name: Parts, tag: string): Parts {
    Resolve(root + ["checkpoints"], name + [tag + ".chk"])
  }

  lemma {:induction false} ResolveProper(at: Parts, parts: Parts)
    ensures (forall i :: 0 <= i < |parts| ==> IsName(parts[i])) ==> Resolve(at, parts) == at + parts
    decreases |parts|
  {
    if parts != [] {
      ResolveProper(at + [parts[0]], parts[1..]);
    }
  }

  /** Proper names stay below their directory. */
  lemma {:induction false} ProperAt(root: Parts, name: Parts, tag: string)
    requires Proper(name)
    ensures FileAt(root, name) == root + ["files"] + name
    ensures UndoAt(root, name) == root + ["undo"] + Suffixed(name, ".undo.json")
    ensures CheckpointAt(root, name, tag) == root + ["checkpoints"] + (name + [tag + ".chk"])
  {
    ResolveProper(root + ["files"], name);
    assert |name[|name| - 1] + ".undo.json"| > 2 && |tag + ".chk"| > 2;
    ResolveProper(root + ["undo"], Suffixed(name, ".undo.json"));
    ResolveProper(root + ["checkpoints"], name + [tag + ".chk"]);
  }

  /** Two paths below a common directory. */
  lemma {:induction false} Below(root: Parts, a: string, x: Parts, b: string, y: Parts)
    ensures root + [a] + x == root + [b] + y <==> a == b && x == y
  {
    assert (root + [a] + x)[|root|] == a && (root + [b] + y)[|root|] == b;
    assert (root + [a] + x)[|root| + 1..] == x && (root + [b] + y)[|root| + 1..] == y;
  }

  lemma {:induction false} SuffixesDiffer(a: Parts, b: Parts, s: string, t: string)
    requires a != [] && b != []
    ensures Suffixed(a, ".undo.json") == Suffixed(b, ".undo.json") ==> a == b
    ensures a + [s + ".chk"] == b + [t + ".chk"] ==> a == b && s == t
  {
    var x, y := Suffixed(a, ".undo.json"), Suffixed(b, ".undo.json");
    if x == y {
      var m, n := a[|a| - 1], b[|b| - 1];
      assert x[|x| - 1] == m + ".undo.json" && y[|y| - 1] == n + ".undo.json";
      assert (m + ".undo.json")[..|m|] == m && (n + ".undo.json")[..|n|] == n;
      assert x[..|x| - 1] == a[..|a| - 1] && y[..|y| - 1] == b[..|b| - 1];
      assert a == a[..|a| - 1] + [m] && b == b[..|b| - 1] + [n];
    }
    var v, w := a + [s + ".chk"], b + [t + ".chk"];
    if v == w {
      assert v[..|v| - 1] == a && w[..|w| - 1] == b && v[|v| - 1] == w[|w| - 1];
      assert (s + ".chk")[..|s|] == s && (t + ".chk")[..|t|] == t;
    }
  }

  /** Content, undo and checkpoint files of proper names never coincide, and each belongs to one name (and tag) only. */
  lemma {:induction false} ResolvedApart(root: Parts, a: Parts, b: Parts, s: string, t: string)
    requires Proper(a) && Proper(b)
    ensures FileAt(root, a) != UndoAt(root, b) && FileAt(root, a) != CheckpointAt(root, b, t)
    ensures UndoAt(root, a) != CheckpointAt(root, b, t)
    ensures FileAt(root, a) == FileAt(root, b) ==> a == b
    ensures UndoAt(root, a) == UndoAt(root, b) ==> a == b
    ensures CheckpointAt(root, a, s) == CheckpointAt(root, b, t) ==> a == b && s == t
  {
    ProperAt(root, a, s);
    ProperAt(root, b, t);
    var ua, ub := Suffixed(a, ".undo.json"), Suffixed(b, ".undo.json");
    var ca, cb := a + [s + ".chk"], b + [t + ".chk"];
    Below(root, "files", a, "undo", ub);
    Below(root, "files", a, "checkpoints", cb);
    Below(root, "undo", ua, "checkpoints", cb);
    Below(root, "files", a, "files", b);
    Below(root, "undo", ua, "undo", ub);
    Below(root, "checkpoints", ca, "checkpoints", cb);
    SuffixesDiffer(a, b, s, t);
  }

  /** Other names do not: a content path can reach any checkpoint and any undo file. */
  lemma {:induction false} DotDotReaches(root: Parts, name: Parts, tag: string)
    requires Proper(name)
    ensures FileAt(root, ["..", "checkpoints"] + (name + [tag + ".chk"])) == CheckpointAt(root, name, tag)
    ensures FileAt(root, ["..", "undo"] + Suffixed(name, ".undo.json")) == UndoAt(root, name)
  {
    UpAndDown(root, "checkpoints", name + [tag + ".chk"]);
    UpAndDown(root, "undo", Suffixed(name, ".undo.json"));
  }

  lemma {:induction false} UpAndDown(root: Parts, dir: string, rest: Parts)
    requires IsName(dir)
    ensures Resolve(root + ["files"], ["..", dir] + rest) == Resolve(root + [dir], rest)
  {
    var parts := ["..", dir] + rest;
    assert parts[1..] == [dir] + rest && ([dir] + rest)[1..] == rest;
    assert Into(root + ["files"], "..") == root;
  }
}
