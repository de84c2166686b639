/** The normalized package name and its dist-info spelling, the directory
    name prefix of the "Recording installed packages" specification of the
    Python Packaging Authority, in which `-` is written `_`. */
module PackageNames {

  /** A validated, normalized package name: lower case, with every run of
      `-`, `_` and `.` collapsed into one `-`. Construction and validation
      are not part of this model; the stored string is taken as given. */
  datatype PackageName = PackageName(name: string)

  /** `str::replace` with a character pattern: every `from` in `s` becomes
      `to`, everything else is kept in order. */
  function Replace(s: string, from: char, to: string): (r: string)
    ensures from !in to ==> from !in r
    ensures |to| == 1 ==> |r| == |s|
    decreases |s|
  {
    if s == [] then []
    else (if s[0] == from then to else [s[0]]) + Replace(s[1..], from, to)
  }

  /** Replacing a character by a single character works position by
      position. */
  lemma {:induction false} ReplaceByChar(s: string, from: char, to: char)
    ensures |Replace(s, from, [to])| == |s|
    ensures forall i :: 0 <= i < |s| ==>
      Replace(s, from, [to])[i] == (if s[i] == from then to else s[i])
    decreases |s|
  {
    if s != [] {
      ReplaceByChar(s[1..], from, to);
      var head := if s[0] == from then [to] else [s[0]];
      assert Replace(s, from, [to]) == head + Replace(s[1..], from, [to]);
      forall i | 0 < i < |s|
        ensures Replace(s, from, [to])[i] == (if s[i] == from then to else s[i])
      {
        assert s[1..][i - 1] == s[i];
      }
    }
  }

  /** A string without `from` is left as it is. */
  lemma {:induction false} ReplaceAbsent(s: string, from: char, to: string)
    requires from !in s
    ensures Replace(s, from, to) == s
    decreases |s|
  {
    if s != [] {
      assert s[0] != from;
      assert from !in s[1..] by {
        forall i | 0 <= i < |s[1..]|
          ensures s[1..][i] != from
        {
          assert s[1..][i] == s[i + 1];
        }
      }
      ReplaceAbsent(s[1..], from, to);
      assert [s[0]] + s[1..] == s;
    }
  }

  /** `as_dist_info_name`: the name with every `-` written `_`. */
  function AsDistInfoName(p: PackageName): (r: string)
    ensures |r| == |p.name|
    ensures '-' !in r
    ensures forall i :: 0 <= i < |r| ==> r[i] == (if p.name[i] == '-' then '_' else p.name[i])
  {
    ReplaceByChar(p.name, '-', '_');
    Replace(p.name, '-', "_")
  }

  /** Escaping an already escaped name changes nothing. */
  lemma DistInfoNameIdempotent(p: PackageName)
    ensures AsDistInfoName(PackageName(AsDistInfoName(p))) == AsDistInfoName(p)
  {
    ReplaceAbsent(AsDistInfoName(p), '-', "_");
  }

  /** A normalized name holds no `_`, so writing every `_` of its dist-info
      name back as `-` recovers the name: distinct normalized names have
      distinct dist-info names. */
  lemma DistInfoNameInvertible(p: PackageName)
    requires '_' !in p.name
    ensures Replace(AsDistInfoName(p), '_', "-") == p.name
  {
    var d := AsDistInfoName(p);
    ReplaceByChar(d, '_', '-');
    assert Replace(d, '_', "-") == Replace(d, '_', ['-']);
  }

  /** `Display`: the stored name, unchanged. */
  function Display(p: PackageName): (s: string)
    ensures PackageName(s) == p
  {
    p.name
  }

  /** `AsRef<str>`: the stored name, unchanged. */
  function AsRef(p: PackageName): (s: string)
    ensures PackageName(s) == p
  {
    p.name
  }

  /** `From<&PackageName>`: a copy of the name. */
  function FromRef(p: PackageName): (q: PackageName)
    ensures q == p
    ensures Display(q) == Display(p) && AsDistInfoName(q) == AsDistInfoName(p)
  {
    p
  }
}
