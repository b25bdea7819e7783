/** Lists linked through a field of their members, the field being a table of links. */
module Chains {
  import opened Wrappers
  import opened ReadyQueue

  function At<T>(s: seq<T>, i: nat): (r: Option<T>)
    ensures r == None <==> i >= |s|
  {
    if i < |s| then Some(s[i]) else None
  }

  /** The members of `s` are chained from `head` through the links `nx`, the last one to nothing. */
  ghost predicate Linked<T>(nx: map<T, Option<T>>, head: Option<T>, s: seq<T>) {
    && NoRepeats(s) && head == At(s, 0)
    && (forall x :: x in s ==> x in nx)
    && (forall i {:trigger nx[s[i]]} :: 0 <= i < |s| ==> nx[s[i]] == At(s, i + 1))
  }

  lemma {:induction false} PutAt<T>(q: seq<T>, t: T, k: nat, i: nat)
    requires k <= |q|
    ensures At(q[..k] + [t] + q[k..], i) == if i < k then Some(q[i]) else if i == k then Some(t) else At(q, i - 1)
  {
  }

  lemma {:induction false} LinkedPut<T>(nx: map<T, Option<T>>, head: Option<T>, q: seq<T>, t: T, k: nat)
    requires Linked(nx, head, q) && t !in q && k <= |q|
    ensures var nx' := nx[t := At(q, k)];
      Linked(if k == 0 then nx' else nx'[q[k - 1] := Some(t)], if k == 0 then Some(t) else head, q[..k] + [t] + q[k..])
  {
    var r := q[..k] + [t] + q[k..];
    var nx' := if k == 0 then nx[t := At(q, k)] else nx[t := At(q, k)][q[k - 1] := Some(t)];
    PutFacts(q, t, k);
    PutAt(q, t, k, 0);
    forall i | 0 <= i < |r| ensures nx'[r[i]] == At(r, i + 1) {
      PutAt(q, t, k, i);
      PutAt(q, t, k, i + 1);
      if i < k { assert q[i] in q; }
      if i > k { assert q[i - 1] in q; }
    }
  }

  lemma {:induction false} CutAt<T>(q: seq<T>, k: nat, i: nat)
    requires k < |q|
    ensures At(q[..k] + q[k + 1..], i) == if i < k then Some(q[i]) else At(q, i + 1)
  {
  }

  /** Linking past `q[k]` takes it out, whatever becomes of its own link. */
  lemma {:induction false} LinkedCut<T>(nx: map<T, Option<T>>, nx': map<T, Option<T>>, head: Option<T>, q: seq<T>, k: nat)
    requires Linked(nx, head, q) && k < |q|
    requires forall x :: x in q && x != q[k] && (k == 0 || x != q[k - 1]) ==> x in nx' && nx'[x] == nx[x]
    requires k > 0 ==> q[k - 1] in nx' && nx'[q[k - 1]] == At(q, k + 1)
    ensures Linked(nx', if k == 0 then At(q, 1) else head, q[..k] + q[k + 1..])
  {
    var r := q[..k] + q[k + 1..];
    CutFacts(q, k);
    CutAt(q, k, 0);
    forall i | 0 <= i < |r| ensures nx'[r[i]] == At(r, i + 1) {
      CutAt(q, k, i);
      CutAt(q, k, i + 1);
      if i < k { assert q[i] in q; } else { assert q[i + 1] in q; }
    }
  }

  lemma {:induction false} LinkedFrame<T>(nx: map<T, Option<T>>, nx': map<T, Option<T>>, head: Option<T>, s: seq<T>)
    requires Linked(nx, head, s) && forall x :: x in s ==> x in nx' && nx'[x] == nx[x]
    ensures Linked(nx', head, s)
  {
    assert forall i :: 0 <= i < |s| ==> s[i] in s;
  }

  // ------------------------------------------------------------- links in both directions

  function Behind<T>(s: seq<T>, i: nat): (r: Option<T>) {
    if 0 < i <= |s| then Some(s[i - 1]) else None
  }

  /** The links `pv` lead backwards through `s`. */
  ghost predicate BackLinked<T>(pv: map<T, Option<T>>, s: seq<T>) {
    && (forall x :: x in s ==> x in pv)
    && (forall i {:trigger pv[s[i]]} :: 0 <= i < |s| ==> pv[s[i]] == Behind(s, i))
  }

  lemma {:induction false} PutBehind<T>(q: seq<T>, t: T, k: nat, i: nat)
    requires k <= |q|
    ensures Behind(q[..k] + [t] + q[k..], i) == if i <= k then Behind(q, i) else if i == k + 1 then Some(t) else Behind(q, i - 1)
  {
  }

  lemma {:induction false} BackPut<T>(pv: map<T, Option<T>>, q: seq<T>, t: T, k: nat)
    requires BackLinked(pv, q) && NoRepeats(q) && t !in q && k <= |q|
    ensures var pv' := pv[t := Behind(q, k)];
      BackLinked(if k == |q| then pv' else pv'[q[k] := Some(t)], q[..k] + [t] + q[k..])
  {
    var r := q[..k] + [t] + q[k..];
    var pv' := if k == |q| then pv[t := Behind(q, k)] else pv[t := Behind(q, k)][q[k] := Some(t)];
    PutFacts(q, t, k);
    forall i | 0 <= i < |r| ensures pv'[r[i]] == Behind(r, i) {
      PutAt(q, t, k, i);
      PutBehind(q, t, k, i);
      if i < k { assert q[i] in q; }
      if i > k { assert q[i - 1] in q; }
    }
  }

  lemma {:induction false} CutBehind<T>(q: seq<T>, k: nat, i: nat)
    requires k < |q|
    ensures Behind(q[..k] + q[k + 1..], i) == if i <= k then Behind(q, i) else Behind(q, i + 1)
  {
  }

  lemma {:induction false} BackCut<T>(pv: map<T, Option<T>>, q: seq<T>, k: nat)
    requires BackLinked(pv, q) && NoRepeats(q) && k < |q|
    ensures BackLinked(if k + 1 == |q| then pv else pv[q[k + 1] := Behind(q, k)], q[..k] + q[k + 1..])
  {
    var r := q[..k] + q[k + 1..];
    var pv' := if k + 1 == |q| then pv else pv[q[k + 1] := Behind(q, k)];
    CutFacts(q, k);
    forall i | 0 <= i < |r| ensures pv'[r[i]] == Behind(r, i) {
      CutAt(q, k, i);
      CutBehind(q, k, i);
      if i < k { assert q[i] in q; } else { assert q[i + 1] in q; }
    }
  }
}
