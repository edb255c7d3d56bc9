/** String helpers shared by the binary renderer and the MAC reformatter:
    deleting every occurrence of a character, and joining groups with a separator. */
module Strings {
  import opened Arith

  /** Every occurrence of `c` deleted, the rest kept in order. */
  function Remove(s: string, c: char): (r: string)
    ensures |r| <= |s|
    ensures c !in r
    ensures forall x :: x in r ==> x in s
  {
    if s == [] then [] else (if s[0] == c then [] else [s[0]]) + Remove(s[1..], c)
  }

  /** The groups placed side by side. */
  function Concat(gs: seq<string>): string
  {
    if gs == [] then [] else gs[0] + Concat(gs[1..])
  }

  /** The groups with one separator between neighbours. */
  function Join(gs: seq<string>, sep: char): string
  {
    if |gs| == 0 then []
    else if |gs| == 1 then gs[0]
    else gs[0] + [sep] + Join(gs[1..], sep)
  }

  predicate Uniform(gs: seq<string>, len: nat)
  {
    forall i :: 0 <= i < |gs| ==> |gs[i]| == len
  }

  lemma {:induction false} RemoveAppend(s: string, t: string, c: char)
    ensures Remove(s + t, c) == Remove(s, c) + Remove(t, c)
  {
    if s == [] {
      assert s + t == t;
    } else {
      assert (s + t)[1..] == s[1..] + t;
      RemoveAppend(s[1..], t, c);
    }
  }

  lemma {:induction false} RemoveAbsent(s: string, c: char)
    requires c !in s
    ensures Remove(s, c) == s
  {
    if s != [] {
      RemoveAbsent(s[1..], c);
    }
  }

  /** Deleting the separator from a join gives the plain concatenation,
      provided no group holds the separator. */
  lemma {:induction false} RemoveJoin(gs: seq<string>, sep: char)
    requires forall i :: 0 <= i < |gs| ==> sep !in gs[i]
    ensures Remove(Join(gs, sep), sep) == Concat(gs)
  {
    if |gs| == 1 {
      RemoveAbsent(gs[0], sep);
      assert Concat(gs[1..]) == [];
    } else if |gs| > 1 {
      RemoveJoin(gs[1..], sep);
      RemoveAppend(gs[0] + [sep], Join(gs[1..], sep), sep);
      RemoveAppend(gs[0], [sep], sep);
      RemoveAbsent(gs[0], sep);
      assert Remove([sep], sep) == [] by { assert [sep][1..] == []; }
    }
  }

  /** The length of a join of groups that all have length `len`. */
  lemma {:induction false} JoinLength(gs: seq<string>, sep: char, len: nat)
    requires Uniform(gs, len)
    ensures |Join(gs, sep)| == if gs == [] then 0 else |gs| * (len + 1) - 1
  {
    if |gs| > 1 {
      JoinLength(gs[1..], sep, len);
      assert |gs| * (len + 1) == (len + 1) + (|gs| - 1) * (len + 1);
    }
  }

  /** Every character of a join is the separator or a character of one of the groups. */
  lemma {:induction false} JoinChars(gs: seq<string>, sep: char, x: char)
    requires x in Join(gs, sep)
    ensures x == sep || exists i :: 0 <= i < |gs| && x in gs[i]
  {
    if |gs| > 1 && x != sep && x !in gs[0] {
      JoinChars(gs[1..], sep, x);
      var i :| 0 <= i < |gs| - 1 && x in gs[1..][i];
      assert x in gs[i + 1];
    }
  }

  /** Every occurrence of `a` replaced by `b`, the rest kept in place. */
  function Substitute(s: string, a: char, b: char): string
  {
    seq(|s|, i requires 0 <= i < |s| => if s[i] == a then b else s[i])
  }

  /** Substituting a character that does not occur changes nothing. */
  lemma SubstituteAbsent(s: string, a: char, b: char)
    requires a !in s
    ensures Substitute(s, a, b) == s
  {
    assert forall i :: 0 <= i < |s| ==> s[i] != a;
  }
}
