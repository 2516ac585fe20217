/** The output file names of `cutout` and the face lookup of `main_cli`. The path is given
    already split the way `os.path.splitext` splits it: `root + ext` is the path and `ext`
    is empty or starts with '.'. Saving the images and testing for files on disk are not
    part of this model; which paths exist is a parameter. */
module OutputNames {
  import opened Grids

  /** `str(n)` for a non-negative integer. */
  function Decimal(n: nat): (s: string)
    ensures |s| >= 1 && (|s| == 1 <==> n < 10)
    ensures forall k :: 0 <= k < |s| ==> '0' <= s[k] <= '9'
  {
    if n < 10 then [Digit(n)] else Decimal(n / 10) + [Digit(n % 10)]
  }

  function Digit(d: nat): (c: char)
    requires d < 10
    ensures '0' <= c <= '9'
  {
    ('0' as int + d) as char
  }

  /** Different numbers have different decimal strings. */
  lemma {:induction false} DecimalInjective(a: nat, b: nat)
    requires Decimal(a) == Decimal(b)
    ensures a == b
  {
    var s := Decimal(a);
    if a >= 10 && b >= 10 {
      assert Decimal(a / 10) == s[..|s| - 1] == Decimal(b / 10);
      DecimalInjective(a / 10, b / 10);
      assert Digit(a % 10) == s[|s| - 1] == Digit(b % 10);
    } else {
      assert Digit(a) == s[0] == Digit(b);
    }
  }

  /** `ext or '.png'`. */
  function ExtOrPng(ext: string): string {
    if ext == "" then ".png" else ext
  }

  /** `f"{root}_{i}{ext or '.png'}"`. */
  function IndexedName(root: string, ext: string, i: nat): (r: string)
    ensures |r| > |root| + |ext| && r[..|root|] == root
  {
    root + "_" + Decimal(i) + ExtOrPng(ext)
  }

  /** Indexed names of different outputs differ. */
  lemma IndexedNamesDistinct(root: string, ext: string, i: nat, j: nat)
    requires i != j
    ensures IndexedName(root, ext, i) != IndexedName(root, ext, j)
  {
    if IndexedName(root, ext, i) == IndexedName(root, ext, j) {
      var a, b, e := Decimal(i), Decimal(j), ExtOrPng(ext);
      var s := IndexedName(root, ext, i);
      var pre := |root| + 1;
      assert |a| == |b|;
      assert a == s[pre..pre + |a|] == b;
      DecimalInjective(i, j);
    }
  }

  /** An indexed name is never the plain output path: it is longer. */
  lemma IndexedNameIsNotOutPath(outPath: string, root: string, ext: string, i: nat)
    requires root + ext == outPath
    ensures IndexedName(root, ext, i) != outPath
  {
    assert |IndexedName(root, ext, i)| > |outPath|;
  }

  /** The paths `cutout` saves `n` outputs to: the output path itself for a single output,
      `root_i` plus the extension (".png" when there is none) for each of several. */
  method SavePaths(outPath: string, root: string, ext: string, n: nat) returns (paths: seq<string>)
    requires root + ext == outPath
    ensures n == 1 ==> paths == [outPath]
    ensures n != 1 ==> |paths| == n && forall i :: 0 <= i < n ==> paths[i] == IndexedName(root, ext, i)
    ensures forall i, j :: 0 <= i < j < |paths| ==> paths[i] != paths[j]
  {
    if n == 1 {
      return [outPath];
    }
    paths := [];
    for i := 0 to n
      invariant |paths| == i && forall k :: 0 <= k < i ==> paths[k] == IndexedName(root, ext, k)
    {
      paths := paths + [IndexedName(root, ext, i)];
    }
    forall i, j | 0 <= i < j < |paths| ensures paths[i] != paths[j] {
      IndexedNamesDistinct(root, ext, i, j);
    }
  }

  /** `main_cli`'s lookup of the cropped face: the output path when it exists, otherwise the
      index-0 name when that exists, otherwise the "Unable to locate" error (`None`). */
  function LocateFace(outPath: string, root: string, ext: string, present: string -> bool): (r: Option<string>)
    requires root + ext == outPath
    ensures present(outPath) ==> r == Some(outPath)
    ensures !present(outPath) ==> (r.Some? <==> present(IndexedName(root, ext, 0)))
    ensures !present(outPath) && r.Some? ==> r.value == IndexedName(root, ext, 0)
    ensures r.Some? ==> present(r.value)
  {
    if present(outPath) then Some(outPath)
    else
      var candidate := root + "_0" + ExtOrPng(ext);
      assert candidate == IndexedName(root, ext, 0);
      if present(candidate) then Some(candidate) else None
  }

  /** When several outputs were saved and the plain path does not exist, the lookup finds
      exactly the first saved output. */
  lemma LocateFindsFirstOutput(outPath: string, root: string, ext: string, n: nat, paths: seq<string>, present: string -> bool)
    requires root + ext == outPath && n >= 2
    requires |paths| == n && forall i :: 0 <= i < n ==> paths[i] == IndexedName(root, ext, i)
    requires !present(outPath) && present(paths[0])
    ensures LocateFace(outPath, root, ext, present) == Some(paths[0])
  {
    assert present(IndexedName(root, ext, 0));
  }
}
