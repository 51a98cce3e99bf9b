/** `S3Service`: the extension of an uploaded file's name and the object key
    each uploaded file is stored under. The storage calls themselves are
    outside the model; the public URL of a key is a parameter (`urlOf`,
    the client's `getUrl`). */
module Uploads {
  import opened Base
  import opened Text

  /** A multipart file: its original name, which may be absent, and its
      size; a file of size zero is empty. */
  datatype Upload = Upload(originalFilename: Option<string>, size: nat)

  /** `s.lastIndexOf(c)`, with `None` for -1. */
  function LastIndexOf(s: string, c: char): (r: Option<nat>)
    ensures r.None? <==> c !in s
    ensures r.Some? ==> r.value < |s| && s[r.value] == c && c !in s[r.value + 1..]
  {
    if |s| == 0 then None
    else if s[|s| - 1] == c then Some(|s| - 1)
    else
      var r := LastIndexOf(s[..|s| - 1], c);
      assert r.Some? ==> s[r.value + 1..] == s[..|s| - 1][r.value + 1..] + [s[|s| - 1]];
      r
  }

  /** `getFileExtension`: nothing for a missing name or a name without a
      dot, otherwise the suffix that starts at the last dot. */
  function GetFileExtension(name: Option<string>): (r: string)
    ensures name.None? || '.' !in name.value ==> r == ""
    ensures name.Some? && '.' in name.value ==>
              && 1 <= |r| <= |name.value|
              && r[0] == '.' && '.' !in r[1..]
              && r == name.value[|name.value| - |r|..]
  {
    if name.None? then ""
    else
      match LastIndexOf(name.value, '.')
      case None => ""
      case Some(i) => name.value[i..]
  }

  /** The extension is the only suffix of the name that starts with a dot
      and holds no other dot. */
  lemma ExtensionIsUnique(name: string, e: string)
    requires 1 <= |e| <= |name| && e == name[|name| - |e|..]
    requires e[0] == '.' && '.' !in e[1..]
    ensures GetFileExtension(Some(name)) == e
  {
    assert name[|name| - |e|] == '.';
  }

  lemma ExtensionExample()
    ensures GetFileExtension(Some("a.tar.gz")) == ".gz"
    ensures GetFileExtension(Some("README")) == ""
  {
    ExtensionIsUnique("a.tar.gz", ".gz");
  }

  /** The loop of `uploadFiles` passes over missing and empty files. */
  predicate Skipped(f: Option<Upload>) {
    f.None? || f.value.size == 0
  }

  /** The positions of the files that are uploaded, in order. */
  function UploadedPositions(files: seq<Option<Upload>>): (r: seq<nat>)
    ensures forall j :: 0 <= j < |r| ==> r[j] < |files| && !Skipped(files[r[j]])
  {
    if |files| == 0 then []
    else
      var n := |files| - 1;
      var front := UploadedPositions(files[..n]);
      if Skipped(files[n]) then front else front + [n]
  }

  /** The uploaded positions are listed in increasing order and none is
      left out. */
  lemma {:induction false} PositionsOrderedAndComplete(files: seq<Option<Upload>>)
    ensures var r := UploadedPositions(files);
            && (forall j, k :: 0 <= j < k < |r| ==> r[j] < r[k])
            && (forall i :: 0 <= i < |files| && !Skipped(files[i]) ==> i in r)
  {
    if |files| > 0 {
      var n := |files| - 1;
      PositionsOrderedAndComplete(files[..n]);
      assert forall i :: 0 <= i < n ==> files[..n][i] == files[i];
    }
  }

  /** A missing first file is passed over, and the second file keeps
      position 1 and so the key that ends in `1`. */
  lemma SkippedFileLeavesGap(f: Upload)
    requires f.size > 0
    ensures UploadedPositions([None, Some(f)]) == [1]
  {
    var files: seq<Option<Upload>> := [None, Some(f)];
    assert files[..1][..0] == [];
    assert UploadedPositions(files[..1][..0]) == [];
    assert Skipped(files[..1][0]);
    assert UploadedPositions(files[..1]) == [];
    assert !Skipped(files[1]);
  }

  /** Looking at one more file adds its position unless it is skipped. */
  lemma PositionsStep(fs: seq<Option<Upload>>, i: nat)
    requires i < |fs|
    ensures UploadedPositions(fs[..i + 1]) == UploadedPositions(fs[..i]) + (if Skipped(fs[i]) then [] else [i])
  {
    assert fs[..i + 1][..i] == fs[..i];
  }

  /** The key of the file at position `i`: the path, the position in the
      list and the extension of the original name. */
  function ObjectKey(path: string, i: nat, f: Upload): string {
    path + NatToString(i) + GetFileExtension(f.originalFilename)
  }

  /** `uploadFiles`: no list or an empty list gives no URL list at all;
      otherwise one URL per uploaded file, in order, each for the key built
      from the file's position in the whole list, so a skipped file leaves
      a gap in the numbering rather than shifting the later keys. */
  method UploadFiles(files: Option<seq<Option<Upload>>>, path: string, urlOf: string -> string)
    returns (urls: Option<seq<string>>)
    ensures files.None? || |files.value| == 0 <==> urls.None?
    ensures urls.Some? ==>
              var positions := UploadedPositions(files.value);
              && |urls.value| == |positions|
              && forall j :: 0 <= j < |positions| ==>
                   urls.value[j] == urlOf(ObjectKey(path, positions[j], files.value[positions[j]].value))
  {
    if files.None? || |files.value| == 0 {
      return None;
    }
    var fs := files.value;
    var list: seq<string> := [];
    ghost var positions: seq<nat> := [];
    var i := 0;
    while i < |fs|
      invariant 0 <= i <= |fs|
      invariant positions == UploadedPositions(fs[..i])
      invariant |list| == |positions|
      invariant forall j :: 0 <= j < |positions| ==> positions[j] < i && fs[positions[j]].Some?
      invariant forall j :: 0 <= j < |list| ==>
                  list[j] == urlOf(ObjectKey(path, positions[j], fs[positions[j]].value))
    {
      PositionsStep(fs, i);
      if !Skipped(fs[i]) {
        list := list + [urlOf(ObjectKey(path, i, fs[i].value))];
        positions := positions + [i];
      }
      i := i + 1;
    }
    assert fs[..i] == fs;
    return Some(list);
  }

  /** Different positions give different keys, whatever the extensions:
      the digits of the position end where the extension's dot begins. */
  lemma KeysDistinct(path: string, i: nat, f: Upload, k: nat, g: Upload)
    requires i != k
    ensures ObjectKey(path, i, f) != ObjectKey(path, k, g)
  {
    var d1, e1 := NatToString(i), GetFileExtension(f.originalFilename);
    var d2, e2 := NatToString(k), GetFileExtension(g.originalFilename);
    NatToStringInjective(i, k);
    ExtensionStartsWithDot(f.originalFilename);
    ExtensionStartsWithDot(g.originalFilename);
    DigitsThenExtension(d1, e1, d2, e2);
    assert ObjectKey(path, i, f) == path + (d1 + e1);
    assert ObjectKey(path, k, g) == path + (d2 + e2);
    if path + (d1 + e1) == path + (d2 + e2) {
      PrefixCancel(path, d1 + e1, d2 + e2);
    }
  }

  /** An extension is empty or starts with its dot. */
  lemma ExtensionStartsWithDot(name: Option<string>)
    ensures |GetFileExtension(name)| == 0 || GetFileExtension(name)[0] == '.'
  {
  }

  /** Equal texts with the same prefix have equal remainders. */
  lemma PrefixCancel(p: string, x: string, y: string)
    requires p + x == p + y
    ensures x == y
  {
    assert x == (p + x)[|p|..];
    assert y == (p + y)[|p|..];
  }

  /** Two different runs of digits, each followed by nothing or by a piece
      starting with a dot, never give the same string. */
  lemma DigitsThenExtension(d1: string, e1: string, d2: string, e2: string)
    requires AllDigits(d1) && AllDigits(d2) && d1 != d2
    requires |e1| == 0 || e1[0] == '.'
    requires |e2| == 0 || e2[0] == '.'
    ensures d1 + e1 != d2 + e2
  {
    if |d1| < |d2| {
      if |e1| > 0 {
        assert (d1 + e1)[|d1|] == '.';
        assert (d2 + e2)[|d1|] == d2[|d1|];
      }
    } else if |d2| < |d1| {
      if |e2| > 0 {
        assert (d2 + e2)[|d2|] == '.';
        assert (d1 + e1)[|d2|] == d1[|d2|];
      }
    } else {
      var j :| 0 <= j < |d1| && d1[j] != d2[j];
      assert (d1 + e1)[j] == d1[j];
      assert (d2 + e2)[j] == d2[j];
    }
  }
}
