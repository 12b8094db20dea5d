/** The key a file gets when it is moved to a folder. */
module MovePath {
  import opened FileIndex

  const SLASH: Byte := 47

  /** The new key. */
  function NewPath(folder: Name, name: Name): Name {
    if folder == [] || folder == [SLASH] then name
    else if folder[|folder| - 1] == SLASH then folder + name
    else folder + [SLASH] + name
  }

  // ----- reading a key

  /** Position of the last slash, or the length if there is none. */
  function LastSlash(key: Name): (k: nat)
    ensures k <= |key| && (k < |key| ==> key[k] == SLASH)
    ensures forall i :: 0 <= i < |key| && (k == |key| || k < i) ==> key[i] != SLASH
  {
    if key == [] then 0
    else
      var rest := LastSlash(key[1..]);
      if rest < |key| - 1 || key[0] != SLASH then rest + 1 else 0
  }

  /** What stands behind the last slash: the name of the file. */
  function NamePart(key: Name): Name {
    var k := LastSlash(key);
    if k == |key| then key else key[k + 1..]
  }

  /** What stands before it: the folder, if the key names one. */
  function FolderPart(key: Name): Name {
    key[..LastSlash(key)]
  }

  predicate InFolder(key: Name) {
    SLASH in key
  }

  // ----- folders

  predicate IsRoot(folder: Name) {
    folder == [] || folder == [SLASH]
  }

  /** The folder without its closing slash, if it has one. */
  function Bare(folder: Name): Name {
    if folder != [] && folder[|folder| - 1] == SLASH then folder[..|folder| - 1] else folder
  }

  /** The key says where the file is: at the root its own name, in a folder the folder, one slash and the name. For a
      name without slashes it can be read back: the part behind the last slash is the name, the part before it the
      folder. */
  predicate Locates(key: Name, folder: Name, name: Name) {
    if IsRoot(folder) then key == name
    else
      && key == Bare(folder) + [SLASH] + name
      && (SLASH !in name ==> InFolder(key) && NamePart(key) == name && FolderPart(key) == Bare(folder))
  }

  lemma {:induction false} LastSlashIs(key: Name, k: nat)
    requires k < |key| && key[k] == SLASH && forall i :: k < i < |key| ==> key[i] != SLASH
    ensures LastSlash(key) == k
  {
    assert LastSlash(key) >= k;
  }

  lemma {:induction false} InBare(folder: Name, name: Name)
    requires !IsRoot(folder)
    ensures NewPath(folder, name) == Bare(folder) + [SLASH] + name
  {
  }

  lemma {:induction false} NewPathLocates(folder: Name, name: Name)
    ensures Locates(NewPath(folder, name), folder, name)
  {
    if !IsRoot(folder) && SLASH !in name {
      var key, k := NewPath(folder, name), |Bare(folder)|;
      InBare(folder, name);
      assert forall i :: k < i < |key| ==> key[i] == name[i - k - 1];
      LastSlashIs(key, k);
    }
  }

  /** Two files get one key exactly when their names agree and their folders differ at most by a closing slash. */
  lemma {:induction false} OneKeyExactly(folder: Name, name: Name, folder': Name, name': Name)
    requires SLASH !in name && SLASH !in name'
    ensures NewPath(folder, name) == NewPath(folder', name') <==> name == name' && Bare(folder) == Bare(folder')
  {
    NewPathLocates(folder, name);
    NewPathLocates(folder', name');
    if name == name' && Bare(folder) == Bare(folder') {
      RootIsBare(folder);
      RootIsBare(folder');
      if !IsRoot(folder) {
        InBare(folder, name);
        InBare(folder', name);
      }
    }
  }

  lemma {:induction false} RootIsBare(folder: Name)
    ensures IsRoot(folder) <==> Bare(folder) == []
  {
    if folder != [] {
      assert folder == folder[..|folder| - 1] + [folder[|folder| - 1]];
    }
  }
}
