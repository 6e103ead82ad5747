/**
  The one ORM query the core relies on: `rows.get(slug=...)`, which returns the
  single matching row, raises `DoesNotExist` when there is none and
  `MultipleObjectsReturned` when there are several.
  */
module Orm {

  datatype Lookup<T> = Found(value: T) | DoesNotExist | MultipleObjectsReturned

  /** The rows whose key is `slug`, in table order (a `filter(slug=...)`). */
  function Matching<T>(rows: seq<T>, key: T -> string, slug: string): (r: seq<T>)
    ensures |r| <= |rows|
  {
    if rows == [] then []
    else if key(rows[0]) == slug then [rows[0]] + Matching(rows[1..], key, slug)
    else Matching(rows[1..], key, slug)
  }

  /** `get(slug=...)`: exactly one matching row, or one of the two exceptions. */
  function Get<T>(rows: seq<T>, key: T -> string, slug: string): (r: Lookup<T>)
    ensures r.DoesNotExist? <==> forall i :: 0 <= i < |rows| ==> key(rows[i]) != slug
    ensures r.Found? ==> exists i :: 0 <= i < |rows| && rows[i] == r.value && key(rows[i]) == slug
    ensures r.Found? ==>
      forall i, j :: 0 <= i < j < |rows| ==> !(key(rows[i]) == slug && key(rows[j]) == slug)
    ensures r.MultipleObjectsReturned? ==>
      exists i, j :: 0 <= i < j < |rows| && key(rows[i]) == slug && key(rows[j]) == slug
  {
    MatchingNone(rows, key, slug);
    MatchingFirst(rows, key, slug);
    MatchingOne(rows, key, slug);
    MatchingMany(rows, key, slug);
    var m := Matching(rows, key, slug);
    if |m| == 0 then DoesNotExist
    else if |m| == 1 then Found(m[0])
    else MultipleObjectsReturned
  }

  lemma {:induction false} MatchingNone<T>(rows: seq<T>, key: T -> string, slug: string)
    ensures |Matching(rows, key, slug)| == 0 <==> forall i :: 0 <= i < |rows| ==> key(rows[i]) != slug
  {
    if rows != [] {
      MatchingNone(rows[1..], key, slug);
      if key(rows[0]) != slug {
        forall i | 0 < i < |rows| ensures rows[i] == rows[1..][i - 1] {}
      }
    }
  }

  /** The first matching row is a row of the table with that key. */
  lemma {:induction false} MatchingFirst<T>(rows: seq<T>, key: T -> string, slug: string)
    ensures |Matching(rows, key, slug)| > 0 ==>
      exists i :: 0 <= i < |rows| && rows[i] == Matching(rows, key, slug)[0] && key(rows[i]) == slug
  {
    if rows != [] && key(rows[0]) != slug {
      MatchingFirst(rows[1..], key, slug);
      if |Matching(rows, key, slug)| > 0 {
        var i :| 0 <= i < |rows[1..]| && rows[1..][i] == Matching(rows, key, slug)[0] && key(rows[1..][i]) == slug;
        assert rows[i + 1] == rows[1..][i];
      }
    }
  }

  /** A single match means no two rows share the key. */
  lemma {:induction false} MatchingOne<T>(rows: seq<T>, key: T -> string, slug: string)
    ensures |Matching(rows, key, slug)| == 1 ==>
      forall i, j :: 0 <= i < j < |rows| ==> !(key(rows[i]) == slug && key(rows[j]) == slug)
  {
    if rows != [] && |Matching(rows, key, slug)| == 1 {
      var tail := rows[1..];
      if key(rows[0]) == slug {
        MatchingNone(tail, key, slug);
        forall j | 0 < j < |rows| ensures key(rows[j]) != slug {
          assert rows[j] == tail[j - 1];
        }
      } else {
        MatchingOne(tail, key, slug);
        forall i, j | 0 <= i < j < |rows| ensures !(key(rows[i]) == slug && key(rows[j]) == slug) {
          if i > 0 {
            assert rows[i] == tail[i - 1] && rows[j] == tail[j - 1];
          }
        }
      }
    }
  }

  /** Two or more matches come from two distinct rows with the key. */
  lemma {:induction false} MatchingMany<T>(rows: seq<T>, key: T -> string, slug: string)
    ensures |Matching(rows, key, slug)| >= 2 ==>
      exists i, j :: 0 <= i < j < |rows| && key(rows[i]) == slug && key(rows[j]) == slug
  {
    if rows != [] && |Matching(rows, key, slug)| >= 2 {
      var tail := rows[1..];
      if key(rows[0]) == slug {
        MatchingNone(tail, key, slug);
        var j :| 0 <= j < |tail| && key(tail[j]) == slug;
        assert rows[j + 1] == tail[j];
      } else {
        MatchingMany(tail, key, slug);
        var i, j :| 0 <= i < j < |tail| && key(tail[i]) == slug && key(tail[j]) == slug;
        assert rows[i + 1] == tail[i] && rows[j + 1] == tail[j];
      }
    }
  }
}
