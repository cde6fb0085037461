/** The result types shared by the models. */
module Wrappers {

  datatype Option<+T> = None | Some(value: T)

}

/** Facts about slices of slices, stated once so that proofs can name them. */
module Slices {

  lemma Take<T>(s: seq<T>, k: nat, e: nat, n: nat)
    requires k + n <= e <= |s|
    ensures s[k..e][..n] == s[k..k + n]
  {
  }

  lemma Drop<T>(s: seq<T>, k: nat, e: nat, n: nat)
    requires k + n <= e <= |s|
    ensures s[k..e][n..] == s[k + n..e]
  {
  }

  lemma TakeRest<T>(s: seq<T>, k: nat, n: nat)
    requires k + n <= |s|
    ensures s[k..][..n] == s[k..k + n]
  {
  }

  lemma DropRest<T>(s: seq<T>, k: nat, n: nat)
    requires k + n <= |s|
    ensures s[k..][n..] == s[k + n..]
  {
  }

  lemma HeadTail<T>(s: seq<T>, k: nat, e: nat)
    requires k < e <= |s|
    ensures s[k..e] == [s[k]] + s[k + 1..e]
  {
  }

  lemma Assoc<T>(a: seq<T>, b: seq<T>, c: seq<T>)
    ensures a + b + c == a + (b + c)
  {
  }

  lemma Regroup<T>(a: seq<T>, b: seq<T>, c: seq<T>, d: seq<T>)
    ensures a + b + c + d == a + (b + (c + d))
  {
  }

  /** `w` stands at position `i` of `s`. */
  predicate Here<T(==)>(s: seq<T>, i: nat, w: seq<T>) {
    i + |w| <= |s| && s[i..i + |w|] == w
  }

  lemma HereSplit<T>(s: seq<T>, i: nat, a: seq<T>, b: seq<T>)
    requires Here(s, i, a + b)
    ensures Here(s, i, a) && Here(s, i + |a|, b)
  {
    var w := a + b;
    Take(s, i, i + |w|, |a|);
    Drop(s, i, i + |w|, |a|);
    assert w[..|a|] == a && w[|a|..] == b;
  }

  lemma HereHead<T>(s: seq<T>, i: nat, c: T, b: seq<T>)
    requires Here(s, i, [c] + b)
    ensures Here(s, i + 1, b) && s[i] == c
  {
    HereSplit(s, i, [c], b);
    HeadTail(s, i, i + 1);
  }

  lemma HereOne<T>(s: seq<T>, i: nat, c: T)
    requires Here(s, i, [c])
    ensures i < |s| && s[i] == c
  {
    assert [c] + [] == [c];
    HereHead(s, i, c, []);
  }
}
