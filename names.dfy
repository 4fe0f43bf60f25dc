/**
  Object and mesh names as the exporter stores them in the map and on disk:
  every maximal run of characters outside [0-9a-zA-Z] becomes one '_'
  (the substitution re.sub('[^0-9a-zA-Z]+', '_', name)).
*/
module Names {

  import opened Seqs

  /** The regular-expression class [0-9a-zA-Z]: ASCII digits and letters only. */
  predicate IsAlnum(c: char) {
    ('0' <= c <= '9') || ('a' <= c <= 'z') || ('A' <= c <= 'Z')
  }

  /** A name the substitution can produce: only [0-9a-zA-Z_] and never two '_' in a row. */
  predicate IsClean(s: string) {
    && (forall k :: 0 <= k < |s| ==> IsAlnum(s[k]) || s[k] == '_')
    && (forall k :: 0 <= k < |s| - 1 ==> !(s[k] == '_' && s[k + 1] == '_'))
  }

  /** The length of the leading run of characters outside [0-9a-zA-Z]. */
  function RunLength(s: string): (n: nat)
    ensures n <= |s|
    ensures forall k :: 0 <= k < n ==> !IsAlnum(s[k])
    ensures n == |s| || IsAlnum(s[n])
  {
    if s != [] && !IsAlnum(s[0]) then 1 + RunLength(s[1..]) else 0
  }

  /** re.sub('[^0-9a-zA-Z]+', '_', s) */
  function Sanitize(s: string): (r: string)
    ensures |r| <= |s|
    ensures r == [] <==> s == []
    ensures s != [] ==> (r[0] == '_' <==> !IsAlnum(s[0]))
    decreases |s|
  {
    if s == [] then []
    else if IsAlnum(s[0]) then [s[0]] + Sanitize(s[1..])
    else "_" + Sanitize(s[1 + RunLength(s[1..])..])
  }

  /** The substitution only produces names of [0-9a-zA-Z_] with no two '_' in a row. */
  lemma {:induction false} SanitizeIsClean(s: string)
    ensures IsClean(Sanitize(s))
    decreases |s|
  {
    if s != [] {
      var rest := if IsAlnum(s[0]) then s[1..] else s[1 + RunLength(s[1..])..];
      SanitizeIsClean(rest);
      var r := Sanitize(s);
      var tail := Sanitize(rest);
      assert r == [r[0]] + tail;
      assert !IsAlnum(s[0]) ==> rest == [] || IsAlnum(rest[0]);
      forall k | 0 <= k < |r| - 1 ensures !(r[k] == '_' && r[k + 1] == '_') {
        if k > 0 {
          assert r[k] == tail[k - 1] && r[k + 1] == tail[k];
        }
      }
    }
  }

  /** A run of separators with nothing else around it becomes exactly one '_'. */
  lemma SanitizeRun(s: string)
    requires s != []
    requires forall k :: 0 <= k < |s| ==> !IsAlnum(s[k])
    ensures Sanitize(s) == "_"
  {
    assert forall k :: 0 <= k < |s[1..]| ==> !IsAlnum(s[1..][k]);
    assert s[1 + RunLength(s[1..])..] == [];
  }

  lemma {:induction false} RunLengthAppend(a: string, b: string)
    requires b != [] && IsAlnum(b[0])
    ensures RunLength(a + b) == RunLength(a)
    decreases |a|
  {
    if a != [] && !IsAlnum(a[0]) {
      assert (a + b)[1..] == a[1..] + b;
      RunLengthAppend(a[1..], b);
    } else if a == [] {
      assert a + b == b;
    }
  }

  /** A leading run is cut where it ends, even when an alphanumeric character and more text follow. */
  lemma SanitizeSkipsRun(a: string, c: char, b: string)
    requires IsAlnum(c) && a != [] && !IsAlnum(a[0])
    ensures Sanitize(a + [c] + b) == "_" + Sanitize(a[1 + RunLength(a[1..])..] + [c] + b)
  {
    var s, n := a + [c] + b, RunLength(a[1..]);
    assert s[0] == a[0] && s[1..] == a[1..] + ([c] + b);
    RunLengthAppend(a[1..], [c] + b);
    assert s[1 + n..] == a[1 + n..] + [c] + b;
  }

  /**
    An alphanumeric character splits the substitution in two: the runs on its
    left and on its right are replaced independently and it is kept as it is.
  */
  lemma {:induction false} SanitizeSplitsAtAlnum(a: string, c: char, b: string)
    requires IsAlnum(c)
    ensures Sanitize(a + [c] + b) == Sanitize(a) + [c] + Sanitize(b)
    decreases |a|
  {
    var s := a + [c] + b;
    if a == [] {
      assert s == [c] + b;
      assert s[1..] == b;
    } else if IsAlnum(a[0]) {
      assert s[1..] == a[1..] + [c] + b;
      SanitizeSplitsAtAlnum(a[1..], c, b);
    } else {
      SanitizeSplitsAtAlnum(a[1 + RunLength(a[1..])..], c, b);
      SanitizeSplitsAfterRun(a, c, b);
    }
  }

  /** The step of the induction above for a name that starts with a run. */
  lemma SanitizeSplitsAfterRun(a: string, c: char, b: string)
    requires IsAlnum(c) && a != [] && !IsAlnum(a[0])
    requires var t := a[1 + RunLength(a[1..])..];
      Sanitize(t + [c] + b) == Sanitize(t) + [c] + Sanitize(b)
    ensures Sanitize(a + [c] + b) == Sanitize(a) + [c] + Sanitize(b)
  {
    var t := a[1 + RunLength(a[1..])..];
    SanitizeSkipsRun(a, c, b);
    var x, y := Sanitize(t), Sanitize(b);
    assert Sanitize(a) == "_" + x;
    Regroup("_", x, [c], y);
  }

  /** The substitution leaves a name it could have produced unchanged. */
  lemma {:induction false} SanitizeKeepsClean(s: string)
    requires IsClean(s)
    ensures Sanitize(s) == s
    decreases |s|
  {
    if s != [] {
      assert IsClean(s[1..]) by {
        assert forall k :: 0 <= k < |s[1..]| ==> s[1..][k] == s[k + 1];
      }
      if IsAlnum(s[0]) {
        SanitizeKeepsClean(s[1..]);
      } else {
        assert s[0] == '_';
        assert s[1..] == [] || IsAlnum(s[1]);
        assert RunLength(s[1..]) == 0;
        SanitizeKeepsClean(s[1..]);
      }
    }
  }

  /** Sanitising twice is the same as sanitising once. */
  lemma SanitizeIdempotent(s: string)
    ensures Sanitize(Sanitize(s)) == Sanitize(s)
  {
    SanitizeIsClean(s);
    SanitizeKeepsClean(Sanitize(s));
  }

}
