/**
 * Shared vocabulary of the map-exploration core: optional values, calls into the
 * search backend that may fail, the outcome of an operation that may end in an
 * unchecked exception, JSON source maps, locations and aggregation buckets.
 */
module Common {

  datatype Option<T> = None | Some(value: T) {
    function GetOr(default: T): T {
      match this
      case Some(v) => v
      case None => default
    }
  }

  /**
   * One call into the search backend: it answers, throws an IOException, or
   * the server answers with an error status, which the client raises as an
   * unchecked ElasticsearchStatusException.
   */
  datatype Call<T> = Answer(value: T) | IOFailure | StatusFailure

  /**
   * How an operation ends: it returns a value (and may have shown an error
   * notification on the way), or an unchecked exception leaves it and nothing
   * is returned.
   */
  datatype Outcome<T> = Returned(value: T, reported: bool) | Crashed

  /**
   * A value of a document's source map, as the backend's JSON parser presents
   * it: a number written without a fraction or exponent comes out as an
   * integer, any other number as a double.
   */
  datatype Json =
    | JNull
    | JBool(b: bool)
    | JInteger(i: int)
    | JNumber(n: real)
    | JString(s: string)
    | JList(items: seq<Json>)
    | JObject(fields: map<string, Json>)

  /** A map location in degrees. */
  datatype Location = Location(lat: real, lon: real)

  /**
   * One cell of a geohash aggregation: the centroid the backend averaged, the
   * number of documents in the cell and a sample of their identifiers.
   */
  datatype GeoBucket = GeoBucket(centerLat: real, centerLon: real, docCount: int, documentIds: seq<string>)

  function Centre(b: GeoBucket): (l: Location)
    ensures l.lat == b.centerLat && l.lon == b.centerLon
  {
    Location(b.centerLat, b.centerLon)
  }

  /** A difference cut off at zero, as a count of items to add or to read. */
  function Max0(x: int): nat
  {
    if x < 0 then 0 else x
  }

  /** Concatenation of a sequence of sequences, in order. */
  function Flatten<T>(xss: seq<seq<T>>): seq<T>
  {
    if xss == [] then [] else xss[0] + Flatten(xss[1..])
  }

  lemma {:induction false} FlattenAppend<T>(a: seq<seq<T>>, b: seq<seq<T>>)
    ensures Flatten(a + b) == Flatten(a) + Flatten(b)
  {
    if a == [] {
      assert a + b == b;
    } else {
      assert (a + b)[1..] == a[1..] + b;
      FlattenAppend(a[1..], b);
    }
  }

  lemma FlattenSingle<T>(x: seq<T>)
    ensures Flatten([x]) == x
  {
    assert [x][1..] == [];
  }

  /** The identifiers start, start + 1, ..., start + n - 1. */
  function Range(start: nat, n: nat): (r: seq<nat>)
    ensures |r| == n
    ensures forall k :: 0 <= k < n ==> r[k] == start + k
  {
    seq(n, k requires 0 <= k < n => start + k)
  }

  /** The elements of a sequence, as a set. */
  function Elems<T(==,!new)>(s: seq<T>): (r: set<T>)
    ensures forall x :: x in r <==> x in s
  {
    if s == [] then {} else {s[0]} + Elems(s[1..])
  }

  predicate Distinct<T(==)>(s: seq<T>)
  {
    forall i, j :: 0 <= i < j < |s| ==> s[i] != s[j]
  }

  /** The elements of s that are not in xs, in their original order. */
  function Without<T(==,!new)>(s: seq<T>, xs: set<T>): (r: seq<T>)
    ensures |r| <= |s|
    ensures forall x :: x in r <==> x in s && x !in xs
  {
    if s == [] then [] else (if s[0] in xs then [] else [s[0]]) + Without(s[1..], xs)
  }

  lemma {:induction false} WithoutDistinct<T(!new)>(s: seq<T>, xs: set<T>)
    requires Distinct(s)
    ensures Distinct(Without(s, xs))
  {
    if s != [] {
      WithoutDistinct(s[1..], xs);
      assert Distinct(s[1..]) by {
        forall i, j | 0 <= i < j < |s[1..]| ensures s[1..][i] != s[1..][j] {
          assert s[1..][i] == s[i + 1] && s[1..][j] == s[j + 1];
        }
      }
      assert s[0] !in s[1..];
    }
  }

  lemma {:induction false} WithoutUnion<T(!new)>(s: seq<T>, xs: set<T>, ys: set<T>)
    ensures Without(Without(s, xs), ys) == Without(s, xs + ys)
  {
    if s != [] {
      var tail := Without(s[1..], xs);
      WithoutUnion(s[1..], xs, ys);
      if s[0] in xs {
        assert Without(s, xs) == tail;
      } else {
        var w := [s[0]] + tail;
        assert Without(s, xs) == w;
        assert w[1..] == tail;
        assert Without(w, ys) == (if s[0] in ys then [] else [s[0]]) + Without(tail, ys);
      }
    }
  }

  lemma {:induction false} WithoutNothing<T(!new)>(s: seq<T>, xs: set<T>)
    requires forall x :: x in s ==> x !in xs
    ensures Without(s, xs) == s
  {
    if s != [] {
      WithoutNothing(s[1..], xs);
    }
  }

  lemma {:induction false} WithoutAppend<T(!new)>(a: seq<T>, b: seq<T>, xs: set<T>)
    ensures Without(a + b, xs) == Without(a, xs) + Without(b, xs)
  {
    if a == [] {
      assert a + b == b;
    } else {
      assert (a + b)[1..] == a[1..] + b;
      WithoutAppend(a[1..], b, xs);
    }
  }
}
