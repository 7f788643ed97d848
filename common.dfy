/** Values shared by every resource: identities, replies, JavaScript truthiness,
    and the list operations the handlers perform on arrays of user ids. */
module Common {

  datatype Option<+T> = None | Some(value: T)

  /** Users are identified by an id compared only for equality. */
  type UserId = nat

  /** An instant of the abstract clock that stands for `new Date()` / `Date.now`. */
  type Time = nat

  /** What a handler answers: the HTTP status and the `message` of the JSON body. */
  datatype Reply = Reply(status: int, message: string)

  /** The reply of every handler whose database call throws, a failed `save` included. */
  const SERVER_ERROR := Reply(500, "Server Error")

  /** A string field of a request body is truthy in JavaScript exactly when it is
      present and not the empty string. */
  predicate Truthy(s: Option<string>)
  {
    s.Some? && s.value != ""
  }

  /** JavaScript's `s || fallback` for a string field of a request body. */
  function Or(s: Option<string>, fallback: string): (r: string)
    ensures r == fallback || (Truthy(s) && r == s.value)
    ensures Truthy(s) ==> r == s.value
  {
    if Truthy(s) then s.value else fallback
  }

  /** `s || fallback` for a string path that may be unset. */
  function OptionalOr(s: Option<string>, fallback: Option<string>): Option<string>
  {
    if Truthy(s) then s else fallback
  }

  /** `s.length` in JavaScript, which every `minlength`/`maxlength` validator
      reads: the number of UTF-16 code units, so a character outside the Basic
      Multilingual Plane (from U+10000 on) counts twice. */
  function JsLength(s: string): (r: nat)
    ensures |s| <= r <= 2 * |s|
    ensures r == |s| <==> forall i :: 0 <= i < |s| ==> s[i] < '\U{10000}'
  {
    if s == [] then 0
    else (if s[0] < '\U{10000}' then 1 else 2) + JsLength(s[1..])
  }

  /** A string made only of characters outside the Basic Multilingual Plane is
      twice as long for JavaScript as it has characters. */
  lemma {:induction false} JsLengthAstral(s: string)
    requires forall i :: 0 <= i < |s| ==> s[i] >= '\U{10000}'
    ensures JsLength(s) == 2 * |s|
  {
    if s != [] {
      JsLengthAstral(s[1..]);
    }
  }

  /** The position of the first element that satisfies p, if any: what `findOne`
      and `findById` return from a collection kept in store order. */
  function FirstIndex<T>(s: seq<T>, p: T -> bool): (r: Option<nat>)
    ensures r.None? <==> forall i :: 0 <= i < |s| ==> !p(s[i])
    ensures r.Some? ==> r.value < |s| && p(s[r.value]) && forall k :: 0 <= k < r.value ==> !p(s[k])
  {
    if s == [] then None
    else if p(s[0]) then Some(0)
    else
      var rest := FirstIndex(s[1..], p);
      if rest.None? then None else Some(rest.value + 1)
  }

  predicate NoDup<T(==)>(s: seq<T>)
  {
    forall i, j :: 0 <= i < j < |s| ==> s[i] != s[j]
  }

  /** `users.filter(y => y !== x)` on an array of user ids: every occurrence of x
      removed, the others kept in order. */
  function Without(s: seq<UserId>, x: UserId): (r: seq<UserId>)
    ensures forall y :: y in r <==> y in s && y != x
    ensures |r| <= |s|
  {
    if s == [] then []
    else if s[0] == x then Without(s[1..], x)
    else [s[0]] + Without(s[1..], x)
  }

  /** Filtering out an absent value gives back the same array. */
  lemma {:induction false} WithoutAbsent(s: seq<UserId>, x: UserId)
    requires x !in s
    ensures Without(s, x) == s
  {
    if s != [] {
      WithoutAbsent(s[1..], x);
    }
  }

  /** On a duplicate-free array that holds x, the filter removes exactly one element. */
  lemma {:induction false} WithoutDropsOne(s: seq<UserId>, x: UserId)
    requires NoDup(s) && x in s
    ensures |Without(s, x)| == |s| - 1
  {
    assert NoDup(s[1..]) by {
      forall i, j | 0 <= i < j < |s[1..]| ensures s[1..][i] != s[1..][j] {
        assert s[1..][i] == s[i + 1] && s[1..][j] == s[j + 1];
      }
    }
    if s[0] == x {
      assert x !in s[1..] by {
        forall k | 0 <= k < |s[1..]| ensures s[1..][k] != x {
          assert s[1..][k] == s[k + 1];
        }
      }
      WithoutAbsent(s[1..], x);
    } else {
      assert x in s[1..] by {
        var k :| 0 <= k < |s| && s[k] == x;
        assert k > 0 && s[1..][k - 1] == x;
      }
      WithoutDropsOne(s[1..], x);
    }
  }

  /** Filtering keeps an array free of duplicates. */
  lemma {:induction false} WithoutNoDup(s: seq<UserId>, x: UserId)
    requires NoDup(s)
    ensures NoDup(Without(s, x))
  {
    if s != [] {
      assert NoDup(s[1..]) by {
        forall i, j | 0 <= i < j < |s[1..]| ensures s[1..][i] != s[1..][j] {
          assert s[1..][i] == s[i + 1] && s[1..][j] == s[j + 1];
        }
      }
      WithoutNoDup(s[1..], x);
      if s[0] != x {
        var t := Without(s[1..], x);
        assert s[0] !in s[1..] by {
          forall k | 0 <= k < |s[1..]| ensures s[1..][k] != s[0] {
            assert s[1..][k] == s[k + 1];
          }
        }
        assert s[0] !in t;
        forall i, j | 0 <= i < j < |[s[0]] + t| ensures ([s[0]] + t)[i] != ([s[0]] + t)[j] {
          if i == 0 {
            assert ([s[0]] + t)[j] == t[j - 1];
          } else {
            assert ([s[0]] + t)[i] == t[i - 1] && ([s[0]] + t)[j] == t[j - 1];
          }
        }
      }
    }
  }

  /** Pushing a value that is not yet present keeps an array free of duplicates. */
  lemma AppendNoDup(s: seq<UserId>, x: UserId)
    requires NoDup(s) && x !in s
    ensures NoDup(s + [x])
  {
    forall i, j | 0 <= i < j < |s + [x]| ensures (s + [x])[i] != (s + [x])[j] {
      if j == |s| {
        assert (s + [x])[i] == s[i];
      } else {
        assert (s + [x])[i] == s[i] && (s + [x])[j] == s[j];
      }
    }
  }
}
