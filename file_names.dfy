/**
 * Document identifiers from image paths: `os.path.basename` (POSIX) followed by
 * `re.sub(r'\.[^.]*$', '', name)`, which deletes the text from the last '.'
 * to the end of the name.
 */
module FileNames {

  /** The part of the path after its last '/'. */
  function BaseName(path: string): (b: string)
    ensures '/' !in b
    ensures |b| <= |path| && path[|path| - |b|..] == b
    ensures |b| < |path| ==> path[|path| - |b| - 1] == '/'
  {
    if path == [] then []
    else if path[|path| - 1] == '/' then []
    else BaseName(path[..|path| - 1]) + [path[|path| - 1]]
  }

  /** The name with its last '.'-suffix removed; unchanged when it has no '.'. */
  function StripExtension(name: string): (r: string)
    ensures |r| <= |name| && name[..|r|] == r
    ensures '.' !in name ==> r == name
    ensures '.' in name ==> |r| < |name| && name[|r|] == '.' && '.' !in name[|r| + 1..]
  {
    if name == [] then []
    else if name[|name| - 1] == '.' then name[..|name| - 1]
    else if '.' in name[..|name| - 1] then StripExtension(name[..|name| - 1])
    else name
  }

  /**
   * `get_file_id(path)`: the base name without its extension. What is removed
   * is empty exactly when the base name has no '.', and otherwise starts with
   * the base name's last '.'.
   */
  function FileId(path: string): (id: string)
    ensures '/' !in id
    ensures |id| <= |BaseName(path)| && BaseName(path)[..|id|] == id
    ensures '.' !in BaseName(path) ==> id == BaseName(path)
    ensures '.' in BaseName(path) ==>
      |id| < |BaseName(path)| && BaseName(path)[|id|] == '.' && '.' !in BaseName(path)[|id| + 1..]
  {
    StripExtension(BaseName(path))
  }

  /** A path without '/' is its own base name. */
  lemma {:induction false} BaseNameOfPlainName(name: string)
    requires '/' !in name
    ensures BaseName(name) == name
  {
    if name != [] {
      BaseNameOfPlainName(name[..|name| - 1]);
    }
  }

  /** Whatever the directory part is, the base name is what follows the last '/'. */
  lemma {:induction false} BaseNameAfterSlash(dir: string, name: string)
    requires '/' !in name
    ensures BaseName(dir + "/" + name) == name
  {
    if name == [] {
      assert (dir + "/" + name)[|dir + "/" + name| - 1] == '/';
    } else {
      var p := dir + "/" + name;
      assert p[..|p| - 1] == dir + "/" + name[..|name| - 1];
      BaseNameAfterSlash(dir, name[..|name| - 1]);
    }
  }

  /** The only '.' of `stem + "." + ext` is the separator, and the name has no '/'. */
  lemma StemDotExt(stem: string, ext: string)
    requires '/' !in stem && '/' !in ext && '.' !in stem && '.' !in ext
    ensures '/' !in stem + "." + ext
    ensures forall i :: 0 <= i < |stem + "." + ext| ==> ((stem + "." + ext)[i] == '.' <==> i == |stem|)
  {
    var name := stem + "." + ext;
    forall i | 0 <= i < |name| ensures name[i] != '/' && (name[i] == '.' <==> i == |stem|) {
      if i < |stem| { assert name[i] == stem[i]; }
      else if i > |stem| { assert name[i] == ext[i - |stem| - 1]; }
    }
  }

  /** A name with exactly one '.' loses the '.' and everything after it. */
  lemma StripAtOnlyDot(name: string, k: nat)
    requires k < |name|
    requires forall i :: 0 <= i < |name| ==> (name[i] == '.' <==> i == k)
    ensures StripExtension(name) == name[..k]
  {
    assert name[k] == '.';
    var r := StripExtension(name);
    assert name[|r|] == '.';
  }

  /** A file name with one extension, under any directory, gives its stem. */
  lemma FileIdOfStem(dir: string, stem: string, ext: string)
    requires '/' !in stem && '/' !in ext && '.' !in stem && '.' !in ext
    ensures FileId(dir + "/" + stem + "." + ext) == stem
  {
    var name := stem + "." + ext;
    assert BaseName(dir + "/" + stem + "." + ext) == name by {
      StemDotExt(stem, ext);
      assert dir + "/" + stem + "." + ext == dir + "/" + name;
      BaseNameAfterSlash(dir, name);
    }
    assert StripExtension(name) == stem by {
      StemDotExt(stem, ext);
      StripAtOnlyDot(name, |stem|);
      assert name[..|stem|] == stem;
    }
  }

  /** A bare id without '/' or '.' is its own file id. */
  lemma FileIdOfPlainId(id: string)
    requires '/' !in id && '.' !in id
    ensures FileId(id) == id
  {
    BaseNameOfPlainName(id);
  }

  /** Both accepted input forms, a file name with directory and extension or a bare id, give the id. */
  lemma FileIdFormats(dir: string, stem: string, ext: string)
    requires stem == "2101" && ext == "jpg"
    ensures FileId(dir + "/" + stem + "." + ext) == stem
    ensures FileId(stem) == stem
  {
    FileIdOfStem(dir, stem, ext);
    FileIdOfPlainId(stem);
  }

  /** Only the last extension goes: "a.tar.gz" gives "a.tar". */
  lemma FileIdKeepsInnerDots()
    ensures FileId("a.tar.gz") == "a.tar"
  {
    var n := "a.tar.gz";
    BaseNameOfPlainName(n);
    var id := FileId(n);
    assert n[|id|] == '.';
  }
}
