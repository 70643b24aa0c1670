/** The canonical conflict-pair key of StateBasedCD.detect: the two aircraft ids, sorted the way
    Python sorts strings, joined by one space; and its inverse, the `split(" ")` that
    ResumeNav applies before unpacking the two ids. */
module PairKeys {
  import opened Lists

  /** Python's `<=` on str: lexicographic on code points, a proper prefix sorts first. */
  predicate LexLe(a: string, b: string)
    decreases |a|
  {
    a == [] || (b != [] && (a[0] < b[0] || (a[0] == b[0] && LexLe(a[1..], b[1..]))))
  }

  lemma {:induction false} LexTotal(a: string, b: string)
    ensures LexLe(a, b) || LexLe(b, a)
    decreases |a|
  {
    if a != [] && b != [] && a[0] == b[0] {
      LexTotal(a[1..], b[1..]);
    }
  }

  lemma {:induction false} LexAntisymmetric(a: string, b: string)
    requires LexLe(a, b) && LexLe(b, a)
    ensures a == b
    decreases |a|
  {
    if a != [] {
      LexAntisymmetric(a[1..], b[1..]);
      assert a == [a[0]] + a[1..] && b == [b[0]] + b[1..];
    }
  }

  /** `sorted([a, b])` */
  function Sorted(a: string, b: string): (p: (string, string))
    ensures LexLe(p.0, p.1)
    ensures (p.0 == a && p.1 == b) || (p.0 == b && p.1 == a)
  {
    LexTotal(a, b);
    if LexLe(a, b) then (a, b) else (b, a)
  }

  /** `srt[0] + " " + srt[1]` with `srt = sorted([a, b])` */
  function Key(a: string, b: string): string {
    var p := Sorted(a, b);
    p.0 + " " + p.1
  }

  /** The pair (A, B) and the pair (B, A) share one registry entry. */
  lemma KeySymmetric(a: string, b: string)
    ensures Key(a, b) == Key(b, a)
  {
    if LexLe(a, b) && LexLe(b, a) {
      LexAntisymmetric(a, b);
    }
  }

  predicate SpaceFree(s: string) {
    ' ' !in s
  }

  /** `ac1, ac2 = key.split(" ")`: defined exactly when the key holds one space (with more or
      fewer parts the unpacking raises). */
  function SplitKey(k: string): Option<(string, string)> {
    var p := IndexOf(k, ' ');
    if p < 0 || ' ' in k[p + 1..] then None else Some((k[..p], k[p + 1..]))
  }

  /** Splitting a key built from two space-free ids gives back the sorted ids. */
  lemma KeySplitRoundTrip(a: string, b: string)
    requires SpaceFree(a) && SpaceFree(b)
    ensures SplitKey(Key(a, b)) == Some(Sorted(a, b))
  {
    var p := Sorted(a, b);
    var k := p.0 + " " + p.1;
    assert k[|p.0|] == ' ';
    assert k[..|p.0|] == p.0;
    assert k[|p.0| + 1..] == p.1;
    assert ' ' !in k[..|p.0|];
  }
}
