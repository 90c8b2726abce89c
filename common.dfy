/** Shared vocabulary: optional values, the controller responses, and the
    sequence operations that stand in for the record store's queries
    (find by id, filtered find, count, sort). */
module Common {

  /** Record identifiers (Mongo ObjectIds), compared by equality only. */
  type Id = nat

  datatype Option<+T> = None | Some(value: T) {
    function GetOr(default: T): T {
      match this
      case Some(v) => v
      case None => default
    }
  }

  /** What a controller answers in place of an HTTP status and JSON body:
      200/201 carry a value, 400, 403, 404 and 500 carry nothing the model uses. */
  datatype Response<+T> = Ok(value: T) | BadRequest | NotFound | Forbidden | ServerError

  /** JavaScript truthiness of an optional string: absent and "" are false. */
  predicate Truthy(s: Option<string>) {
    s.Some? && s.value != ""
  }

  // ---------------------------------------------------------------------------
  // Filtered find

  /** The elements of `s` that satisfy `p`, in their original order. */
  function Filter<T(!new)>(s: seq<T>, p: T -> bool): (r: seq<T>)
    ensures |r| <= |s|
    ensures forall i :: 0 <= i < |r| ==> p(r[i])
    ensures forall x :: multiset(r)[x] == if p(x) then multiset(s)[x] else 0
  {
    if s == [] then []
    else
      var rest := Filter(s[1..], p);
      assert s == [s[0]] + s[1..];
      if p(s[0]) then [s[0]] + rest else rest
  }

  /** Membership in a filtered sequence. */
  lemma FilterMembers<T(!new)>(s: seq<T>, p: T -> bool)
    ensures forall x :: x in Filter(s, p) <==> x in s && p(x)
  {
    forall x ensures x in Filter(s, p) <==> x in s && p(x) {
      assert x in Filter(s, p) <==> x in multiset(Filter(s, p));
      assert x in s <==> x in multiset(s);
    }
  }

  /** A filter that nothing passes yields nothing. */
  lemma FilterNone<T(!new)>(s: seq<T>, p: T -> bool)
    requires forall i :: 0 <= i < |s| ==> !p(s[i])
    ensures Filter(s, p) == []
  {
  }

  // ---------------------------------------------------------------------------
  // Find by id

  /** The position of the first element whose key is `id` (findById). */
  function Find<T>(s: seq<T>, key: T -> Id, id: Id): (r: Option<nat>)
    ensures r.Some? ==> r.value < |s| && key(s[r.value]) == id
    ensures r.Some? ==> forall k :: 0 <= k < r.value ==> key(s[k]) != id
    ensures r.None? <==> forall k :: 0 <= k < |s| ==> key(s[k]) != id
  {
    if s == [] then None
    else if key(s[0]) == id then Some(0)
    else
      match Find(s[1..], key, id)
      case None => None
      case Some(k) => Some(k + 1)
  }

  /** No two elements of `s` share a key (unique _id). */
  ghost predicate DistinctKeys<T>(s: seq<T>, key: T -> Id) {
    forall i, j :: 0 <= i < j < |s| ==> key(s[i]) != key(s[j])
  }

  /** With unique keys, the element found for a key is the one at any position holding it. */
  lemma FindUnique<T>(s: seq<T>, key: T -> Id, i: nat)
    requires DistinctKeys(s, key) && i < |s|
    ensures Find(s, key, key(s[i])) == Some(i)
  {
  }

  // ---------------------------------------------------------------------------
  // Sort

  /** `before` orders any two values one way or the other. */
  ghost predicate Total<T(!new)>(before: (T, T) -> bool) {
    forall a, b :: before(a, b) || before(b, a)
  }

  /** `before` chains: a before b before c puts a before c. */
  ghost predicate Transitive<T(!new)>(before: (T, T) -> bool) {
    forall a, b, c :: before(a, b) && before(b, c) ==> before(a, c)
  }

  /** Every element stands `before` its successor. */
  predicate SortedBy<T>(s: seq<T>, before: (T, T) -> bool) {
    forall i :: 0 < i < |s| ==> before(s[i - 1], s[i])
  }

  /** For a transitive order, sorted by neighbours means sorted pairwise. */
  lemma {:induction false} SortedPairwise<T(!new)>(s: seq<T>, before: (T, T) -> bool)
    requires Transitive(before) && SortedBy(s, before)
    ensures forall i, j :: 0 <= i < j < |s| ==> before(s[i], s[j])
  {
    if |s| > 1 {
      var tail := s[1..];
      assert SortedBy(tail, before) by {
        forall i | 0 < i < |tail| ensures before(tail[i - 1], tail[i]) {
          assert tail[i - 1] == s[i] && tail[i] == s[i + 1];
        }
      }
      SortedPairwise(tail, before);
      forall j | 1 < j < |s| ensures before(s[0], s[j]) {
        assert tail[0] == s[1] && tail[j - 1] == s[j];
      }
    }
  }

  function Insert<T(!new)>(x: T, s: seq<T>, before: (T, T) -> bool): (r: seq<T>)
    requires Total(before)
    requires SortedBy(s, before)
    ensures multiset(r) == multiset(s) + multiset{x}
    ensures SortedBy(r, before)
    ensures |r| == |s| + 1
    ensures r[0] == x || (s != [] && r[0] == s[0])
  {
    if s == [] || before(x, s[0]) then [x] + s
    else
      var rest := Insert(x, s[1..], before);
      assert s == [s[0]] + s[1..];
      [s[0]] + rest
  }

  /** A rearrangement of `s` ordered by `before` (the store's `.sort(...)`;
      the order of ties is not promised). */
  function SortBy<T(!new)>(s: seq<T>, before: (T, T) -> bool): (r: seq<T>)
    requires Total(before)
    ensures multiset(r) == multiset(s)
    ensures SortedBy(r, before)
  {
    if s == [] then []
    else
      assert s == [s[0]] + s[1..];
      Insert(s[0], SortBy(s[1..], before), before)
  }

  // ---------------------------------------------------------------------------
  // String order

  /** Lexicographic order on strings by character code, as the store sorts names. */
  predicate LexLe(a: string, b: string) {
    a == [] || (b != [] && (a[0] < b[0] || (a[0] == b[0] && LexLe(a[1..], b[1..]))))
  }

  lemma {:induction false} LexLeTotal(a: string, b: string)
    ensures LexLe(a, b) || LexLe(b, a)
  {
    if a != [] && b != [] && a[0] == b[0] {
      LexLeTotal(a[1..], b[1..]);
    }
  }

  lemma {:induction false} LexLeTransitive(a: string, b: string, c: string)
    requires LexLe(a, b) && LexLe(b, c)
    ensures LexLe(a, c)
  {
    if a != [] && b != [] && c != [] && a[0] == b[0] && b[0] == c[0] {
      LexLeTransitive(a[1..], b[1..], c[1..]);
    }
  }
}
