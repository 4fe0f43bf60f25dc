/**
  The ';'-separated texture lists the asset ledger keeps in its DDSpath
  attribute (str.split(";") and ';'.join), and the ASCII case folding the
  texture diff compares paths with.
*/
module Lists {

  /** The position of the first c in s, or |s| when there is none. */
  function IndexOf(s: string, c: char): (k: nat)
    ensures k <= |s|
    ensures k < |s| ==> s[k] == c
    ensures forall j :: 0 <= j < k ==> s[j] != c
  {
    if s == [] then 0 else if s[0] == c then 0 else 1 + IndexOf(s[1..], c)
  }

  /** s.split(";"): never empty, and "" splits into [""]. */
  function Split(s: string): (parts: seq<string>)
    ensures |parts| >= 1
    ensures forall k :: 0 <= k < |parts| ==> ';' !in parts[k]
    decreases |s|
  {
    var k := IndexOf(s, ';');
    if k == |s| then [s] else [s[..k]] + Split(s[k + 1..])
  }

  /** ';'.join(parts) */
  function Join(parts: seq<string>): string {
    if parts == [] then ""
    else if |parts| == 1 then parts[0]
    else parts[0] + ";" + Join(parts[1..])
  }

  /** Joining the pieces of a split gives back the original text. */
  lemma {:induction false} JoinSplit(s: string)
    ensures Join(Split(s)) == s
    decreases |s|
  {
    var k := IndexOf(s, ';');
    if k < |s| {
      JoinSplit(s[k + 1..]);
      var rest := Split(s[k + 1..]);
      assert Split(s) == [s[..k]] + rest;
      assert s == s[..k] + ";" + s[k + 1..];
    } else {
      assert Split(s) == [s];
    }
  }

  /** Splitting a join gives back the pieces, when none of them holds a ';'. */
  lemma {:induction false} SplitJoin(parts: seq<string>)
    requires |parts| >= 1
    requires forall k :: 0 <= k < |parts| ==> ';' !in parts[k]
    ensures Split(Join(parts)) == parts
    decreases |parts|
  {
    if |parts| > 1 {
      var p := parts[0];
      var s := Join(parts);
      assert s == p + ";" + Join(parts[1..]);
      assert s[..|p|] == p && s[|p|] == ';';
      assert forall j :: 0 <= j < |p| ==> s[j] == p[j];
      assert IndexOf(s, ';') == |p| by {
        IndexOfIsFirst(s, ';', |p|);
      }
      assert s[|p| + 1..] == Join(parts[1..]);
      SplitJoin(parts[1..]);
    } else {
      var p := parts[0];
      assert forall j :: 0 <= j < |p| ==> p[j] != ';';
      IndexOfAbsent(p, ';');
    }
  }

  lemma IndexOfIsFirst(s: string, c: char, k: nat)
    requires k < |s| && s[k] == c
    requires forall j :: 0 <= j < k ==> s[j] != c
    ensures IndexOf(s, c) == k
  {
  }

  lemma IndexOfAbsent(s: string, c: char)
    requires forall j :: 0 <= j < |s| ==> s[j] != c
    ensures IndexOf(s, c) == |s|
  {
  }

  /** str.lower() on one character, for the ASCII letters. */
  function LowerChar(c: char): (d: char)
    ensures 'A' <= c <= 'Z' ==> 'a' <= d <= 'z'
    ensures !('A' <= c <= 'Z') ==> d == c
  {
    if 'A' <= c <= 'Z' then (c as int - 'A' as int + 'a' as int) as char else c
  }

  function Lower(s: string): (r: string)
    ensures |r| == |s|
    ensures forall k :: 0 <= k < |s| ==> r[k] == LowerChar(s[k])
  {
    seq(|s|, k requires 0 <= k < |s| => LowerChar(s[k]))
  }

  /** a.lower() == b.lower() */
  predicate SameFolded(a: string, b: string) {
    Lower(a) == Lower(b)
  }

  /** Some element of list equals x once both are lower-cased. */
  predicate InFolded(x: string, list: seq<string>) {
    exists k :: 0 <= k < |list| && SameFolded(x, list[k])
  }

  predicate NoDups(list: seq<string>) {
    forall i, j :: 0 <= i < j < |list| ==> list[i] != list[j]
  }

}
