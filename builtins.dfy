/**
 * The Ruby core methods the handlers in todo.rb lean on, over sequences:
 * `select`, `partition`, `find`, `max` and `String#strip`.
 */
module Builtins {
  import opened Records

  /** The negation of a block. */
  function Not<T>(p: T -> bool): T -> bool
  {
    x => !p(x)
  }

  /** No two elements of `s` share a key. */
  predicate UniqueKeys<T, K(==)>(s: seq<T>, key: T -> K)
  {
    forall i, j :: 0 <= i < j < |s| ==> key(s[i]) != key(s[j])
  }

  /** `select` (and, with `Not`, `reject` / `delete_if`): the elements satisfying `p`, in order. */
  function Select<T>(s: seq<T>, p: T -> bool): (r: seq<T>)
    ensures |r| <= |s|
    ensures forall i :: 0 <= i < |r| ==> r[i] in s && p(r[i])
  {
    if s == [] then []
    else
      assert s == [s[0]] + s[1..];
      if p(s[0]) then [s[0]] + Select(s[1..], p) else Select(s[1..], p)
  }

  /**
   * `partition`: the pair (elements for which the block holds, the others).
   * Together the two halves are a rearrangement of `s` (`PartitionPermutes`).
   */
  function Partition<T>(s: seq<T>, p: T -> bool): (r: (seq<T>, seq<T>))
    ensures |r.0| + |r.1| == |s|
    ensures forall i :: 0 <= i < |r.0| ==> p(r.0[i])
    ensures forall i :: 0 <= i < |r.1| ==> !p(r.1[i])
  {
    if s == [] then ([], [])
    else
      var rest := Partition(s[1..], p);
      if p(s[0]) then ([s[0]] + rest.0, rest.1) else (rest.0, [s[0]] + rest.1)
  }

  /** `find` / `find_index`: the position of the first element satisfying `p`. */
  function FindIndex<T>(s: seq<T>, p: T -> bool): (r: Option<nat>)
    ensures r.Some? ==> r.value < |s| && p(s[r.value])
    ensures r.Some? ==> forall j :: 0 <= j < r.value ==> !p(s[j])
    ensures r.None? <==> forall j :: 0 <= j < |s| ==> !p(s[j])
  {
    if s == [] then None
    else if p(s[0]) then Some(0)
    else match FindIndex(s[1..], p)
      case None => None
      case Some(k) => Some(k + 1)
  }

  /** `max` on integers: `nil` for an empty collection, otherwise the largest element. */
  function Max(s: seq<int>): (r: Option<int>)
    ensures r.None? <==> s == []
    ensures r.Some? ==> r.value in s
    ensures r.Some? ==> forall i :: 0 <= i < |s| ==> s[i] <= r.value
  {
    if s == [] then None
    else
      assert s == [s[0]] + s[1..];
      match Max(s[1..])
      case None => Some(s[0])
      case Some(m) => Some(if s[0] >= m then s[0] else m)
  }

  /** The characters `String#strip` removes from either end of a string. */
  predicate IsWhitespace(c: char)
  {
    c == ' ' || c == '\t' || c == '\n' || c == '\U{000B}' || c == '\U{000C}' || c == '\r' || c == '\0'
  }

  /** The length of the run of whitespace that starts `s`. */
  function LeadingWhitespace(s: string): (k: nat)
    ensures k <= |s|
    ensures forall i :: 0 <= i < k ==> IsWhitespace(s[i])
    ensures k < |s| ==> !IsWhitespace(s[k])
  {
    if s == [] || !IsWhitespace(s[0]) then 0 else 1 + LeadingWhitespace(s[1..])
  }

  /** The length of the run of whitespace that ends `s`. */
  function TrailingWhitespace(s: string): (k: nat)
    ensures k <= |s|
    ensures forall i :: |s| - k <= i < |s| ==> IsWhitespace(s[i])
    ensures k < |s| ==> !IsWhitespace(s[|s| - 1 - k])
  {
    if s == [] || !IsWhitespace(s[|s| - 1]) then 0 else 1 + TrailingWhitespace(s[..|s| - 1])
  }

  /**
   * `String#strip`: `s` without its leading and trailing whitespace. What is
   * left is a contiguous piece of `s` that starts and ends with a
   * non-whitespace character, and only whitespace was cut off around it.
   */
  function Strip(s: string): (r: string)
    ensures |r| <= |s|
    ensures r == [] || (!IsWhitespace(r[0]) && !IsWhitespace(r[|r| - 1]))
    ensures exists k :: 0 <= k <= |s| - |r| && StrippedAt(s, r, k)
  {
    var lead := LeadingWhitespace(s);
    var rest := s[lead..];
    var r := rest[..|rest| - TrailingWhitespace(rest)];
    assert StrippedAt(s, r, lead);
    r
  }

  /** `r` sits at offset `k` of `s`, with only whitespace before and after it. */
  ghost predicate StrippedAt(s: string, r: string, k: int)
  {
    && 0 <= k <= |s| - |r|
    && s[k..k + |r|] == r
    && (forall i :: 0 <= i < k ==> IsWhitespace(s[i]))
    && (forall i :: k + |r| <= i < |s| ==> IsWhitespace(s[i]))
  }

  lemma {:induction false} SelectAppend<T>(a: seq<T>, b: seq<T>, p: T -> bool)
    ensures Select(a + b, p) == Select(a, p) + Select(b, p)
  {
    if a == [] {
      assert a + b == b;
    } else {
      assert (a + b)[0] == a[0];
      assert (a + b)[1..] == a[1..] + b;
      SelectAppend(a[1..], b, p);
    }
  }

  /** The positions of `s` whose element satisfies the block. */
  ghost function Positions<T>(s: seq<T>, p: T -> bool): set<int>
  {
    set i | 0 <= i < |s| && p(s[i])
  }

  /** The size of a `select` is the number of positions whose element satisfies the block. */
  lemma {:induction false} SelectCount<T>(s: seq<T>, p: T -> bool)
    ensures |Select(s, p)| == |Positions(s, p)|
  {
    if s != [] {
      var n := |s| - 1;
      var init := s[..n];
      SelectCount(init, p);
      assert s == init + [s[n]];
      SelectAppend(init, [s[n]], p);
      assert Select([s[n]], p) == (if p(s[n]) then [s[n]] else []) by {
        assert [s[n]][1..] == [];
      }
      var before, after := Positions(init, p), Positions(s, p);
      if p(s[n]) {
        assert after == before + {n};
      } else {
        assert after == before;
      }
    }
  }

  /** `select` keeps the order: two accepted elements appear in the result in their input order. */
  lemma SelectKeepsOrder<T>(s: seq<T>, p: T -> bool, i: nat, j: nat)
    requires i < j < |s| && p(s[i]) && p(s[j])
    ensures exists a, b :: 0 <= a < b < |Select(s, p)| && Select(s, p)[a] == s[i] && Select(s, p)[b] == s[j]
  {
    var front, back := s[..j], s[j..];
    assert s == front + back;
    SelectAppend(front, back, p);
    SelectKeeps(front, p, i);
    var sf := Select(front, p);
    var a :| 0 <= a < |sf| && sf[a] == s[i];
    assert back == [s[j]] + back[1..];
    assert Select(s, p)[a] == s[i];
    assert Select(s, p)[|sf|] == s[j];
  }

  /** Every element satisfying the block is kept. */
  lemma {:induction false} SelectKeeps<T>(s: seq<T>, p: T -> bool, i: nat)
    requires i < |s| && p(s[i])
    ensures s[i] in Select(s, p)
  {
    if i > 0 {
      SelectKeeps(s[1..], p, i - 1);
    }
  }

  /** Only when every element satisfies the block is nothing dropped. */
  lemma {:induction false} SelectFull<T>(s: seq<T>, p: T -> bool)
    requires |Select(s, p)| == |s|
    ensures forall i :: 0 <= i < |s| ==> p(s[i])
  {
    if s != [] {
      SelectFull(s[1..], p);
      assert s == [s[0]] + s[1..];
    }
  }

  /** Selecting from a sequence in which exactly one element fails the block drops just that one. */
  lemma SelectDropsOne<T>(before: seq<T>, x: T, after: seq<T>, p: T -> bool)
    requires forall k :: 0 <= k < |before| ==> p(before[k])
    requires forall k :: 0 <= k < |after| ==> p(after[k])
    requires !p(x)
    ensures Select(before + [x] + after, p) == before + after
  {
    assert Select([x], p) == [] by {
      assert [x][1..] == [];
    }
    assert Select(before + [x], p) == before by {
      SelectAppend(before, [x], p);
      SelectAll(before, p);
      assert before + [] == before;
    }
    SelectAppend(before + [x], after, p);
    SelectAll(after, p);
  }

  lemma {:induction false} SelectSame<T>(s: seq<T>, p: T -> bool, q: T -> bool)
    requires forall x :: p(x) == q(x)
    ensures Select(s, p) == Select(s, q)
  {
    if s != [] {
      SelectSame(s[1..], p, q);
    }
  }

  /** `partition` yields exactly what `select` and `reject` with the same block yield. */
  lemma {:induction false} PartitionIsSelect<T>(s: seq<T>, p: T -> bool)
    ensures Partition(s, p).0 == Select(s, p)
    ensures Partition(s, p).1 == Select(s, Not(p))
  {
    if s != [] {
      PartitionIsSelect(s[1..], p);
    }
  }

  /** The two halves of `partition` together hold exactly the elements of `s`. */
  lemma {:induction false} PartitionPermutes<T>(s: seq<T>, p: T -> bool)
    ensures multiset(Partition(s, p).0) + multiset(Partition(s, p).1) == multiset(s)
  {
    if s != [] {
      PartitionPermutes(s[1..], p);
      assert s == [s[0]] + s[1..];
    }
  }

  /** Dropping elements cannot create a clash of keys. */
  lemma {:induction false} SelectKeepsUniqueKeys<T, K>(s: seq<T>, p: T -> bool, key: T -> K)
    requires UniqueKeys(s, key)
    ensures UniqueKeys(Select(s, p), key)
  {
    if s != [] {
      var tail := s[1..];
      assert UniqueKeys(tail, key) by {
        forall i, j | 0 <= i < j < |tail| ensures key(tail[i]) != key(tail[j]) {
          assert tail[i] == s[i + 1] && tail[j] == s[j + 1];
        }
      }
      SelectKeepsUniqueKeys(tail, p, key);
      var rt := Select(tail, p);
      if p(s[0]) {
        assert Select(s, p) == [s[0]] + rt;
        forall j | 0 <= j < |rt| ensures key(s[0]) != key(rt[j]) {
          assert rt[j] in tail;
          var m :| 0 <= m < |tail| && tail[m] == rt[j];
          assert s[m + 1] == rt[j];
        }
      }
    }
  }

  lemma {:induction false} SelectAll<T>(s: seq<T>, p: T -> bool)
    requires forall i :: 0 <= i < |s| ==> p(s[i])
    ensures Select(s, p) == s
  {
    if s != [] {
      SelectAll(s[1..], p);
    }
  }

  lemma {:induction false} SelectNone<T>(s: seq<T>, p: T -> bool)
    requires forall i :: 0 <= i < |s| ==> !p(s[i])
    ensures Select(s, p) == []
  {
    if s != [] {
      SelectNone(s[1..], p);
    }
  }

  /** A second `strip` changes nothing. */
  lemma StripIdempotent(s: string)
    ensures Strip(Strip(s)) == Strip(s)
  {
    var r := Strip(s);
    StripClean(r);
  }

  /** A string with no whitespace at either end is its own `strip`. */
  lemma StripClean(s: string)
    requires s == [] || (!IsWhitespace(s[0]) && !IsWhitespace(s[|s| - 1]))
    ensures Strip(s) == s
  {
    if s != [] {
      assert LeadingWhitespace(s) == 0;
      assert s[0..] == s;
      assert TrailingWhitespace(s) == 0;
    }
  }
}
