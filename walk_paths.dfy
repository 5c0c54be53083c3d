/**
 * The per-entry decision of the directory walk: which files are compressed,
 * and the output path each one gets. Paths are sequences of components (the
 * text between separators); joining and cleaning them is component
 * concatenation.
 */
module WalkPaths {
  /** The walk's root and the root of the mirrored output tree. */
  const InputDir: seq<string> := ["images"]
  const OutputDir: seq<string> := ["img_cmp"]

  /** The allow-list, looked up with the lowercased extension; a missing key reads as false. */
  const SupportedExts: map<string, bool> := map[".jpg" := true, ".jpeg" := true, ".png" := true, ".webp" := true]

  /** The extension of a path component: the suffix from its last dot on, or empty if it has none. */
  function Ext(name: string): (r: string)
    ensures |r| <= |name| && name[|name| - |r|..] == r
    ensures r == [] <==> '.' !in name
    ensures r != [] ==> r[0] == '.' && '.' !in r[1..]
  {
    if '.' !in name then []
    else if name[|name| - 1] == '.' then "."
    else
      var r := Ext(name[..|name| - 1]);
      assert name[..|name| - 1] + [name[|name| - 1]] == name;
      r + [name[|name| - 1]]
  }

  /** ASCII case folding of one character; every other character is left as it is. */
  function LowerChar(c: char): char
  {
    if 'A' <= c <= 'Z' then (c as int - 'A' as int + 'a' as int) as char else c
  }

  /** ASCII lowercasing: upper-case letters become their lower-case partners, everything else is kept. */
  function ToLower(s: string): (r: string)
    ensures |r| == |s|
  {
    seq(|s|, i requires 0 <= i < |s| => LowerChar(s[i]))
  }

  predicate HasSuffix(s: string, suffix: string)
  {
    |suffix| <= |s| && s[|s| - |suffix|..] == suffix
  }

  /** `s` without `suffix` if it ends with it (compared exactly, case included), otherwise `s`. */
  function TrimSuffix(s: string, suffix: string): (r: string)
    ensures HasSuffix(s, suffix) ==> r + suffix == s
    ensures !HasSuffix(s, suffix) ==> r == s
  {
    if HasSuffix(s, suffix) then s[..|s| - |suffix|] else s
  }

  /** The last component of a path; the empty path reads as ".". */
  function Base(path: seq<string>): (r: string)
    ensures path == [] ==> r == "."
    ensures path != [] ==> path == path[..|path| - 1] + [r]
  {
    if path == [] then "." else path[|path| - 1]
  }

  /**
   * The directory part of a relative path: all components but the last. A path
   * of one component has no directory part ("." is dropped when joined).
   */
  function Dir(rel: seq<string>): (r: seq<string>)
    ensures |rel| <= 1 ==> r == []
    ensures |rel| >= 1 ==> rel == r + [Base(rel)]
  {
    if |rel| <= 1 then [] else rel[..|rel| - 1]
  }

  /** The allow-list lookup: exactly the four extensions, written in lower case. */
  predicate Supported(ext: string)
    ensures Supported(ext) <==> ext in {".jpg", ".jpeg", ".png", ".webp"}
  {
    ext in SupportedExts && SupportedExts[ext]
  }

  /** The output file name: `base` with the (already lowercased) extension trimmed, then ".jpg". */
  function OutputName(base: string, ext: string): string
  {
    TrimSuffix(base, ext) + ".jpg"
  }

  /** One entry reported by the walk: its path relative to the root, whether it is a directory, and whether the walk reported an error for it. */
  datatype Entry = Entry(rel: seq<string>, isDir: bool, err: bool)

  /** What the walk callback does with an entry. */
  datatype Action =
    | Abort                                          // returns the error: the walk stops
    | Skip                                           // returns nothing: the walk goes on
    | Compress(input: seq<string>, output: seq<string>)  // compresses `input` into `output`

  function Visit(e: Entry): Action
  {
    if e.err then Abort
    else if e.isDir then Skip
    else
      var path := InputDir + e.rel;
      var ext := ToLower(Ext(Base(path)));
      if !Supported(ext) then Skip
      else Compress(path, OutputDir + Dir(e.rel) + [OutputName(Base(path), ext)])
  }

  /** A name whose last dot is followed by `tail` has extension "." + `tail`. */
  lemma {:induction false} ExtAfterLastDot(stem: string, tail: string)
    requires '.' !in tail
    ensures Ext(stem + "." + tail) == "." + tail
  {
    var name := stem + "." + tail;
    var r := Ext(name);
    assert name[|stem|] == '.';
    assert r == name[|name| - |r|..] == "." + tail;
  }

  /**
   * Lowercasing folds letters by position: no upper-case letter is left, an
   * upper-case letter becomes the letter 32 code points above it, and every
   * other character is kept.
   */
  lemma ToLowerFolds(s: string)
    ensures forall i :: 0 <= i < |s| ==> !('A' <= ToLower(s)[i] <= 'Z')
    ensures forall i :: 0 <= i < |s| && !('A' <= s[i] <= 'Z') ==> ToLower(s)[i] == s[i]
    ensures forall i :: 0 <= i < |s| && 'A' <= s[i] <= 'Z' ==> ToLower(s)[i] as int == s[i] as int + 32
  {
  }

  /** Lowercasing keeps the length and is idempotent. */
  lemma {:induction false} ToLowerIdempotent(s: string)
    ensures |ToLower(s)| == |s| && ToLower(ToLower(s)) == ToLower(s)
  {
    forall i | 0 <= i < |s|
      ensures ToLower(ToLower(s))[i] == ToLower(s)[i]
    {
      var c := s[i];
      assert LowerChar(LowerChar(c)) == LowerChar(c);
    }
  }

  /**
   * An entry is compressed exactly when the walk reported no error for it, it
   * is not a directory, and its lowercased extension is one of the four on the
   * allow-list; it aborts the walk exactly when an error was reported.
   */
  lemma VisitCompressesExactly(e: Entry)
    ensures Visit(e).Compress? <==>
      !e.err && !e.isDir && ToLower(Ext(Base(InputDir + e.rel))) in {".jpg", ".jpeg", ".png", ".webp"}
    ensures Visit(e) == Abort <==> e.err
    ensures Visit(e).Compress? ==> |e.rel| >= 1
  {
    if e.rel == [] {
      assert '.' !in InputDir[0];
    }
  }

  /**
   * The output mirrors the input: the same relative directories, under the
   * output root instead of the input root, and a name ending in ".jpg".
   */
  lemma {:induction false} OutputMirrorsInput(e: Entry)
    requires Visit(e).Compress?
    ensures var a := Visit(e);
      && |a.output| == |a.input|
      && a.input[0] == "images" && a.output[0] == "img_cmp"
      && a.input[1..|a.input| - 1] == a.output[1..|a.output| - 1] == e.rel[..|e.rel| - 1]
      && a.input[|a.input| - 1] == e.rel[|e.rel| - 1]
      && HasSuffix(a.output[|a.output| - 1], ".jpg")
  {
    VisitCompressesExactly(e);
    var path := InputDir + e.rel;
    var dirs := Dir(e.rel);
    var base := Base(path);
    assert base == e.rel[|e.rel| - 1];
    assert dirs == e.rel[..|e.rel| - 1];
    var out := OutputName(base, ToLower(Ext(base)));
    assert Visit(e) == Compress(InputDir + (dirs + [base]), OutputDir + dirs + [out]);
    MirrorShape(dirs, base, out);
    assert out[|out| - 4..] == ".jpg";
  }

  /** The component layout of a mirrored pair of paths. */
  lemma MirrorShape(dirs: seq<string>, last: string, name: string)
    ensures var i, o := InputDir + (dirs + [last]), OutputDir + dirs + [name];
      && |o| == |i| && i[0] == "images" && o[0] == "img_cmp"
      && i[1..|i| - 1] == dirs && o[1..|o| - 1] == dirs
      && i[|i| - 1] == last && o[|o| - 1] == name
  {
    var i, o := InputDir + (dirs + [last]), OutputDir + dirs + [name];
    assert i[1..|i| - 1] == dirs;
    assert o[1..|o| - 1] == dirs;
  }

  /** An extension written in lower case is replaced: "photo.png" becomes "photo.jpg". */
  lemma {:induction false} LowercaseExtReplaced(base: string)
    requires ToLower(Ext(base)) == Ext(base)
    ensures OutputName(base, ToLower(Ext(base))) == base[..|base| - |Ext(base)|] + ".jpg"
  {
  }

  /**
   * An extension with an upper-case letter is not removed, because the trim
   * compares with the lowercased extension: "photo.PNG" becomes "photo.PNG.jpg".
   */
  lemma {:induction false} UppercaseExtKept(base: string)
    requires ToLower(Ext(base)) != Ext(base)
    ensures OutputName(base, ToLower(Ext(base))) == base + ".jpg"
  {
    var ext := Ext(base);
    ToLowerIdempotent(ext);
    if HasSuffix(base, ToLower(ext)) {
      assert false;
    }
  }

  /** The file `name` under the relative directories `dirs`: its base name and its directory part. */
  lemma FileUnderDirs(dirs: seq<string>, name: string)
    ensures Base(InputDir + dirs + [name]) == name
    ensures Dir(dirs + [name]) == dirs
  {
    var rel := dirs + [name];
    assert rel[..|rel| - 1] == dirs;
  }

  /** The callback on the file `name` under `dirs`, with the path arithmetic done. */
  lemma VisitFile(dirs: seq<string>, name: string)
    ensures var ext := ToLower(Ext(name));
      Visit(Entry(dirs + [name], false, false))
      == if Supported(ext) then Compress(InputDir + dirs + [name], OutputDir + dirs + [OutputName(name, ext)]) else Skip
  {
    FileUnderDirs(dirs, name);
    assert InputDir + (dirs + [name]) == InputDir + dirs + [name];
  }

  /** The output name of `stem.tail` when `.tail` is the extension trimmed: `stem.jpg`. */
  lemma TrimmedName(stem: string, tail: string)
    ensures OutputName(stem + "." + tail, "." + tail) == stem + ".jpg"
  {
    var name := stem + "." + tail;
    assert HasSuffix(name, "." + tail);
    assert name[..|name| - |"." + tail|] == stem;
  }

  /** Lowercasing "." + `tail` changes it exactly when lowercasing `tail` does. */
  lemma {:induction false} ToLowerDotted(tail: string)
    ensures ToLower("." + tail) == "." + ToLower(tail)
  {
    var d := "." + tail;
    forall k | 0 <= k < |d|
      ensures ToLower(d)[k] == ("." + ToLower(tail))[k]
    {
      if k > 0 {
        assert d[k] == tail[k - 1];
      }
    }
  }

  /** `stem.tail` with an upper-case letter in `tail` keeps its whole name before ".jpg". */
  lemma UppercaseName(stem: string, tail: string)
    requires '.' !in tail && ToLower(tail) != tail
    ensures OutputName(stem + "." + tail, ToLower(Ext(stem + "." + tail))) == stem + "." + tail + ".jpg"
  {
    ExtAfterLastDot(stem, tail);
    ToLowerDotted(tail);
    assert ToLower("." + tail) != "." + tail by {
      assert ("." + ToLower(tail))[1..] == ToLower(tail) && ("." + tail)[1..] == tail;
    }
    UppercaseExtKept(stem + "." + tail);
  }

  /**
   * A file `stem.tail` under the relative directories `dirs` whose extension,
   * lowercased, is on the allow-list: when the extension is already lower
   * case, the output is img_cmp/dirs/stem.jpg (images/a/b/photo.png becomes
   * img_cmp/a/b/photo.jpg).
   */
  lemma {:induction false} WalkLowercaseExt(dirs: seq<string>, stem: string, tail: string)
    requires '.' !in tail && ToLower(tail) == tail
    requires Supported("." + tail)
    ensures Visit(Entry(dirs + [stem + "." + tail], false, false))
         == Compress(InputDir + dirs + [stem + "." + tail], OutputDir + dirs + [stem + ".jpg"])
  {
    var name := stem + "." + tail;
    VisitFile(dirs, name);
    ExtAfterLastDot(stem, tail);
    ToLowerDotted(tail);
    TrimmedName(stem, tail);
    assert ToLower(Ext(name)) == "." + tail;
  }

  /**
   * The same file when its extension has an upper-case letter: the trim looks
   * for the lowercased extension, does not find it, and the output is
   * img_cmp/dirs/stem.tail.jpg (images/a/b/photo.PNG becomes
   * img_cmp/a/b/photo.PNG.jpg).
   */
  lemma {:induction false} WalkUppercaseExt(dirs: seq<string>, stem: string, tail: string)
    requires '.' !in tail && ToLower(tail) != tail
    requires Supported(ToLower("." + tail))
    ensures Visit(Entry(dirs + [stem + "." + tail], false, false))
         == Compress(InputDir + dirs + [stem + "." + tail], OutputDir + dirs + [stem + "." + tail + ".jpg"])
  {
    var name := stem + "." + tail;
    VisitFile(dirs, name);
    ExtAfterLastDot(stem, tail);
    UppercaseName(stem, tail);
  }

  /** A file whose lowercased extension is not on the allow-list, such as notes.txt, is skipped. */
  lemma {:induction false} WalkSkipsOtherExt(dirs: seq<string>, stem: string, tail: string)
    requires '.' !in tail
    requires !Supported(ToLower("." + tail))
    ensures Visit(Entry(dirs + [stem + "." + tail], false, false)) == Skip
  {
    VisitFile(dirs, stem + "." + tail);
    ExtAfterLastDot(stem, tail);
  }
}
