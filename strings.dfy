/**
 * The string operations the scripts build file names with: Python's
 * `s.split('/')[-1]`, `s.replace(old, new)` and the two-argument
 * `os.path.join` of POSIX.
 */
module Strings {

  /** `p` occurs in `s` at position i. */
  predicate OccursAt(s: string, p: string, i: nat)
  {
    i + |p| <= |s| && s[i..i + |p|] == p
  }

  /** `s.split('/')[-1]`: the text after the last `/`, or all of s. */
  function LastComponent(s: string): string
  {
    if |s| == 0 then ""
    else if s[|s| - 1] == '/' then ""
    else LastComponent(s[..|s| - 1]) + [s[|s| - 1]]
  }

  /** `s.replace(p, r)`: every non-overlapping occurrence of p, scanning
      from the left, is replaced by r. */
  function ReplaceAll(s: string, p: string, r: string): string
    requires |p| > 0
    decreases |s|
  {
    if |s| < |p| then s
    else if s[..|p|] == p then r + ReplaceAll(s[|p|..], p, r)
    else [s[0]] + ReplaceAll(s[1..], p, r)
  }

  /** `os.path.join(a, b)`. */
  function Join(a: string, b: string): string
  {
    if |b| > 0 && b[0] == '/' then b
    else if |a| == 0 || a[|a| - 1] == '/' then a + b
    else a + "/" + b
  }

  /** The last component is a suffix of the path and holds no `/`. */
  lemma {:induction false} LastComponentIsFinal(s: string)
    ensures '/' !in LastComponent(s)
    ensures |LastComponent(s)| <= |s| && LastComponent(s) == s[|s| - |LastComponent(s)|..]
  {
    if |s| > 0 && s[|s| - 1] != '/' {
      var p, x := s[..|s| - 1], s[|s| - 1];
      LastComponentIsFinal(p);
      var l := LastComponent(p);
      assert LastComponent(s) == l + [x];
      assert s[|s| - |l| - 1..] == p[|p| - |l|..] + [x];
    }
  }

  /** The last component of `dir + "/" + name` is `name` when name holds no `/`. */
  lemma {:induction false} LastComponentOfJoin(dir: string, name: string)
    requires '/' !in name
    ensures LastComponent(dir + "/" + name) == name
    decreases |name|
  {
    var s := dir + "/" + name;
    if |name| == 0 {
      assert s[|s| - 1] == '/';
    } else {
      var n' := name[..|name| - 1];
      assert s[..|s| - 1] == dir + "/" + n';
      assert '/' !in n' by {
        assert forall i :: 0 <= i < |n'| ==> n'[i] == name[i];
      }
      LastComponentOfJoin(dir, n');
      assert name == n' + [name[|name| - 1]];
    }
  }

  /** Replacing with a text free of `/` introduces no `/`. */
  lemma {:induction false} ReplaceAllKeepsNoSlash(s: string, p: string, r: string)
    requires |p| > 0 && '/' !in s && '/' !in r
    ensures '/' !in ReplaceAll(s, p, r)
    decreases |s|
  {
    if |s| >= |p| {
      if s[..|p|] == p {
        assert forall i :: 0 <= i < |s| - |p| ==> s[|p|..][i] == s[i + |p|];
        ReplaceAllKeepsNoSlash(s[|p|..], p, r);
      } else {
        assert forall i :: 0 <= i < |s| - 1 ==> s[1..][i] == s[i + 1];
        ReplaceAllKeepsNoSlash(s[1..], p, r);
      }
    }
  }

  /** When p occurs in `t + p` only at the end, replacing p in `t + p`
      yields `t + r`. */
  lemma {:induction false} ReplaceAllAtEnd(t: string, p: string, r: string)
    requires |p| > 0
    requires forall i :: 0 <= i < |t| ==> !OccursAt(t + p, p, i)
    ensures ReplaceAll(t + p, p, r) == t + r
    decreases |t|
  {
    var s := t + p;
    if |t| == 0 {
      assert s == p && s[|p|..] == [];
    } else {
      assert s[..|p|] != p by {
        assert !OccursAt(s, p, 0);
      }
      assert ReplaceAll(s, p, r) == [s[0]] + ReplaceAll(s[1..], p, r);
      assert s[1..] == t[1..] + p;
      NoOccurrenceInTail(t, p);
      ReplaceAllAtEnd(t[1..], p, r);
      assert t == [t[0]] + t[1..];
    }
  }

  /** Dropping the first character keeps p from occurring before the end. */
  lemma NoOccurrenceInTail(t: string, p: string)
    requires |t| > 0
    requires forall i :: 0 <= i < |t| ==> !OccursAt(t + p, p, i)
    ensures forall i :: 0 <= i < |t| - 1 ==> !OccursAt(t[1..] + p, p, i)
  {
    var s := t + p;
    forall i | 0 <= i < |t| - 1
      ensures !OccursAt(t[1..] + p, p, i)
    {
      assert !OccursAt(s, p, i + 1);
      assert (t[1..] + p)[i..i + |p|] == s[i + 1..i + 1 + |p|];
    }
  }

  /** A name the artifact rules carry through unchanged: no `/` and no
      occurrence of `.xlsx`. */
  predicate NameSafe(t: string)
  {
    '/' !in t && forall i :: 0 <= i < |t| ==> !OccursAt(t, ".xlsx", i)
  }

  /** For a safe name, `.xlsx` occurs in `t + ".xlsx"` only at the end:
      an occurrence overlapping the end would need a `.` inside "xlsx". */
  lemma XlsxOnlyAtEnd(t: string)
    requires NameSafe(t)
    ensures forall i :: 0 <= i < |t| ==> !OccursAt(t + ".xlsx", ".xlsx", i)
  {
    var s := t + ".xlsx";
    forall i | 0 <= i < |t|
      ensures !OccursAt(s, ".xlsx", i)
    {
      if i + 5 <= |t| {
        assert !OccursAt(t, ".xlsx", i);
        assert s[i..i + 5] == t[i..i + 5];
      } else {
        var k := |t| - i;
        assert s[i..i + 5][k] == s[|t|] == '.';
        assert ".xlsx"[k] != '.';
      }
    }
  }

  /** `(t + ".xlsx").replace(".xlsx", r)` is `t + r` for a safe name. */
  lemma ReplaceExtension(t: string, r: string)
    requires NameSafe(t)
    ensures ReplaceAll(t + ".xlsx", ".xlsx", r) == t + r
  {
    XlsxOnlyAtEnd(t);
    ReplaceAllAtEnd(t, ".xlsx", r);
  }

  /** Joining a folder that is non-empty and does not end in `/` with a
      relative name inserts exactly one `/`. */
  lemma JoinRelative(a: string, b: string)
    requires |a| > 0 && a[|a| - 1] != '/'
    requires |b| == 0 || b[0] != '/'
    ensures Join(a, b) == a + "/" + b
  {
  }

  /** Such joins are injective in the name. */
  lemma JoinInjective(a: string, b1: string, b2: string)
    requires |a| > 0 && a[|a| - 1] != '/'
    requires |b1| == 0 || b1[0] != '/'
    requires |b2| == 0 || b2[0] != '/'
    requires Join(a, b1) == Join(a, b2)
    ensures b1 == b2
  {
    var n := |a + "/"|;
    assert b1 == (a + "/" + b1)[n..];
    assert b2 == (a + "/" + b2)[n..];
  }
}
