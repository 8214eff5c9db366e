/** Values shared by every part of the model: optional values, the Python
    exceptions the pipeline lets escape, and order-preserving filtering. */
module Common {

  /** A value that may be missing: Python's `None` or a dictionary key that is absent. */
  datatype Option<T> = None | Some(value: T)

  /** The Python exceptions that some code path of the pipeline raises and does not catch. */
  datatype Error =
    | IndexError        // `[0]` or `[1]` on a list that is too short
    | AttributeError    // `.text` or `.find` on the `None` that a failed lookup returned
    | KeyError          // `element['src']` on an element without that attribute
    | RequestException  // a network failure other than the ones a function catches
    | DatabaseError     // a statement psycopg2 reports as failed, e.g. in an aborted transaction

  /** What a Python call does: it returns a value, or it raises. */
  datatype Outcome<T> = Returned(value: T) | Raised(error: Error)

  /** A point in time, as the database stores it. */
  type Timestamp = string

  /** The elements of `s` that satisfy `keep`, in their original order
      (a Python list comprehension with an `if`). */
  function Filter<T>(s: seq<T>, keep: T -> bool): (r: seq<T>)
    ensures |r| <= |s| && multiset(r) <= multiset(s)
    ensures forall i :: 0 <= i < |r| ==> keep(r[i])
    ensures forall i :: 0 <= i < |s| && keep(s[i]) ==> s[i] in r
  {
    if |s| == 0 then []
    else
      assert s == [s[0]] + s[1..];
      (if keep(s[0]) then [s[0]] else []) + Filter(s[1..], keep)
  }

  /** Filtering distributes over concatenation, so it keeps the relative order of what it keeps. */
  lemma {:induction false} FilterAppend<T>(a: seq<T>, b: seq<T>, keep: T -> bool)
    ensures Filter(a + b, keep) == Filter(a, keep) + Filter(b, keep)
  {
    if |a| == 0 {
      assert a + b == b;
    } else {
      assert (a + b)[0] == a[0];
      assert (a + b)[1..] == a[1..] + b;
      FilterAppend(a[1..], b, keep);
    }
  }

  /** A filter that keeps everything returns its input. */
  lemma {:induction false} FilterAll<T>(s: seq<T>, keep: T -> bool)
    requires forall i :: 0 <= i < |s| ==> keep(s[i])
    ensures Filter(s, keep) == s
  {
    if |s| > 0 {
      FilterAll(s[1..], keep);
    }
  }

  /** A filter that keeps nothing returns nothing. */
  lemma {:induction false} FilterNone<T>(s: seq<T>, keep: T -> bool)
    requires forall i :: 0 <= i < |s| ==> !keep(s[i])
    ensures Filter(s, keep) == []
  {
    if |s| > 0 {
      FilterNone(s[1..], keep);
    }
  }

  /** An element of a sequence is in any sequence whose multiset contains it. */
  lemma InSub<T>(a: seq<T>, b: seq<T>, i: int)
    requires multiset(a) <= multiset(b) && 0 <= i < |a|
    ensures a[i] in b
  {
    assert a[i] in multiset(a);
  }

  /** The defined results of `f` over `s`, in order: a loop that appends
      `f(x)` for each `x` unless `f(x)` is None. */
  function FilterMap<A, B>(s: seq<A>, f: A -> Option<B>): (r: seq<B>)
    decreases |s|
    ensures |r| <= |s|
  {
    if |s| == 0 then []
    else FilterMap(s[..|s| - 1], f) + (if f(s[|s| - 1]).Some? then [f(s[|s| - 1]).value] else [])
  }

  /** One more element adds at most its own result, at the end. */
  lemma FilterMapSnoc<A, B>(s: seq<A>, i: nat, f: A -> Option<B>)
    requires i < |s|
    ensures FilterMap(s[..i + 1], f) == FilterMap(s[..i], f) + (if f(s[i]).Some? then [f(s[i]).value] else [])
  {
    assert s[..i + 1][..i] == s[..i];
  }

  /** FilterMap distributes over concatenation. */
  lemma {:induction false} FilterMapAppend<A, B>(a: seq<A>, b: seq<A>, f: A -> Option<B>)
    decreases |b|
    ensures FilterMap(a + b, f) == FilterMap(a, f) + FilterMap(b, f)
  {
    if |b| == 0 {
      assert a + b == a;
    } else {
      var b' := b[..|b| - 1];
      assert (a + b)[..|a + b| - 1] == a + b';
      assert (a + b)[|a + b| - 1] == b[|b| - 1];
      FilterMapAppend(a, b', f);
    }
  }

  /** The result is exactly the defined results, in input order: `src[j]`
      is the position that produced result `j`, positions increase, and
      every position with a defined result is among them. */
  lemma {:induction false} FilterMapOrigins<A, B>(s: seq<A>, f: A -> Option<B>) returns (src: seq<nat>)
    decreases |s|
    ensures |src| == |FilterMap(s, f)|
    ensures forall j :: 0 <= j < |src| ==> src[j] < |s| && f(s[src[j]]) == Some(FilterMap(s, f)[j])
    ensures forall j, k :: 0 <= j < k < |src| ==> src[j] < src[k]
    ensures forall i :: 0 <= i < |s| && f(s[i]).Some? ==> exists j :: 0 <= j < |src| && src[j] == i
  {
    if |s| == 0 {
      src := [];
    } else {
      var s0 := FilterMapOrigins(s[..|s| - 1], f);
      src := OriginsSnoc(s, f, s0);
    }
  }

  /** `src` lists, in increasing order, the positions of `s` where `f` is
      defined, and the results of FilterMap come from them. */
  ghost predicate IsOrigins<A, B>(s: seq<A>, f: A -> Option<B>, src: seq<nat>) {
    && |src| == |FilterMap(s, f)|
    && (forall j :: 0 <= j < |src| ==> src[j] < |s| && f(s[src[j]]) == Some(FilterMap(s, f)[j]))
    && (forall j, k :: 0 <= j < k < |src| ==> src[j] < src[k])
    && (forall i :: 0 <= i < |s| && f(s[i]).Some? ==> exists j :: 0 <= j < |src| && src[j] == i)
  }

  /** The origins of all of `s` from those of all but its last element. */
  lemma OriginsSnoc<A, B>(s: seq<A>, f: A -> Option<B>, s0: seq<nat>) returns (src: seq<nat>)
    requires |s| > 0 && IsOrigins(s[..|s| - 1], f, s0)
    ensures IsOrigins(s, f, src)
  {
    var n := |s| - 1;
    var init := s[..n];
    var out0 := FilterMap(init, f);
    assert forall k :: 0 <= k < n ==> init[k] == s[k];
    if f(s[n]).Some? {
      src := s0 + [n];
      assert FilterMap(s, f) == out0 + [f(s[n]).value];
      forall i | 0 <= i < |s| && f(s[i]).Some?
        ensures exists j :: 0 <= j < |src| && src[j] == i
      {
        if i < n {
          var j :| 0 <= j < |s0| && s0[j] == i;
          assert src[j] == i;
        } else {
          assert src[|s0|] == i;
        }
      }
    } else {
      src := s0;
      assert FilterMap(s, f) == out0;
    }
  }

  /** Running steps `0 .. n-1` in order, each of which may raise: the defined
      results in step order, or the exception of the first step that raises
      (a loop that appends what each step returns unless it is None). */
  function Collect<T>(n: nat, step: nat -> Outcome<Option<T>>): (r: Outcome<seq<T>>)
    ensures r.Returned? ==> |r.value| <= n
  {
    if n == 0 then Returned([])
    else
      match Collect(n - 1, step)
      case Raised(err) => Raised(err)
      case Returned(acc) =>
        match step(n - 1)
        case Raised(err) => Raised(err)
        case Returned(x) => Returned(acc + (if x.Some? then [x.value] else []))
  }

  /** One more step of the loop that returned so far. */
  lemma CollectSnoc<T>(i: nat, step: nat -> Outcome<Option<T>>, all: seq<T>, x: Option<T>)
    requires Collect(i, step) == Returned(all) && step(i) == Returned(x)
    ensures Collect(i + 1, step) == Returned(all + if x.Some? then [x.value] else [])
  {
  }

  /** Once the first `m` steps raise, running more steps raises the same. */
  lemma {:induction false} CollectRaisedStays<T>(n: nat, m: nat, step: nat -> Outcome<Option<T>>)
    requires m <= n && Collect(m, step).Raised?
    decreases n
    ensures Collect(n, step) == Collect(m, step)
  {
    if m < n {
      CollectRaisedStays(n - 1, m, step);
    }
  }

  /** The run raises exactly when some step raises, and then with the
      exception of the first one. */
  lemma {:induction false} CollectRaises<T>(n: nat, step: nat -> Outcome<Option<T>>)
    decreases n
    ensures Collect(n, step).Raised? <==> exists i :: 0 <= i < n && step(i).Raised?
    ensures Collect(n, step).Raised? ==>
      exists i :: 0 <= i < n && step(i).Raised? && Collect(n, step).error == step(i).error
        && forall k :: 0 <= k < i ==> step(k).Returned?
  {
    if n > 0 {
      CollectRaises(n - 1, step);
    }
  }

  /** When nothing raises, the result is exactly the defined results in step
      order: `src[j]` is the step that produced result `j`, steps increase,
      and every step with a defined result is among them. */
  lemma {:induction false} CollectOrigins<T>(n: nat, step: nat -> Outcome<Option<T>>) returns (src: seq<nat>)
    requires Collect(n, step).Returned?
    decreases n
    ensures var out := Collect(n, step).value;
      && |src| == |out|
      && (forall j :: 0 <= j < |src| ==> src[j] < n && step(src[j]) == Returned(Some(out[j])))
      && (forall j, k :: 0 <= j < k < |src| ==> src[j] < src[k])
      && (forall i :: 0 <= i < n && step(i) != Returned(None) ==> exists j :: 0 <= j < |src| && src[j] == i)
  {
    if n == 0 {
      src := [];
    } else {
      var s0 := CollectOrigins(n - 1, step);
      src := CollectOriginsSnoc(n, step, s0);
    }
  }

  /** `src` lists, in increasing order, the steps below `n` that returned a
      result, and the results of Collect come from them. */
  ghost predicate IsCollectOrigins<T>(n: nat, step: nat -> Outcome<Option<T>>, src: seq<nat>)
    requires Collect(n, step).Returned?
  {
    var out := Collect(n, step).value;
    && |src| == |out|
    && (forall j :: 0 <= j < |src| ==> src[j] < n && step(src[j]) == Returned(Some(out[j])))
    && (forall j, k :: 0 <= j < k < |src| ==> src[j] < src[k])
    && (forall i :: 0 <= i < n && step(i) != Returned(None) ==> exists j :: 0 <= j < |src| && src[j] == i)
  }

  /** The origins of `n` steps from those of the first `n - 1`. */
  lemma CollectOriginsSnoc<T>(n: nat, step: nat -> Outcome<Option<T>>, s0: seq<nat>) returns (src: seq<nat>)
    requires n > 0 && Collect(n, step).Returned? && Collect(n - 1, step).Returned?
    requires IsCollectOrigins(n - 1, step, s0)
    ensures IsCollectOrigins(n, step, src)
  {
    if step(n - 1).value.Some? {
      src := s0 + [n - 1];
      CollectOriginsKept(n, step, s0);
    } else {
      src := s0;
      assert Collect(n, step).value == Collect(n - 1, step).value;
    }
  }

  /** A step that returned a result adds its own position to the origins. */
  lemma CollectOriginsKept<T>(n: nat, step: nat -> Outcome<Option<T>>, s0: seq<nat>)
    requires n > 0 && Collect(n, step).Returned? && Collect(n - 1, step).Returned?
    requires step(n - 1).Returned? && step(n - 1).value.Some?
    requires IsCollectOrigins(n - 1, step, s0)
    ensures IsCollectOrigins(n, step, s0 + [n - 1])
  {
    var src := s0 + [n - 1];
    var out0 := Collect(n - 1, step).value;
    var out := Collect(n, step).value;
    assert out == out0 + [step(n - 1).value.value];
    forall j | 0 <= j < |src|
      ensures src[j] < n && step(src[j]) == Returned(Some(out[j]))
    {
      if j < |s0| {
        assert src[j] == s0[j] && out[j] == out0[j];
      }
    }
    forall i | 0 <= i < n && step(i) != Returned(None)
      ensures exists j :: 0 <= j < |src| && src[j] == i
    {
      if i < n - 1 {
        var j :| 0 <= j < |s0| && s0[j] == i;
        assert src[j] == i;
      } else {
        assert src[|s0|] == i;
      }
    }
  }
}
