/**
  The pieces of Python's `str` the anchor extraction uses: `s.split(sep)` on a
  one-character separator, `''.join(fields)` and the substring test `t in s`,
  together with reference definitions they are proved against.
  */
module Text {

  /** `s.split(sep)`: the fields between separators, empty ones included, so
      a string with k separators has k + 1 fields. */
  function Split(s: string, sep: char): (fields: seq<string>)
    ensures |fields| >= 1
    ensures forall i :: 0 <= i < |fields| ==> sep !in fields[i]
  {
    if s == [] then [""]
    else
      var rest := Split(s[1..], sep);
      if s[0] == sep then [""] + rest
      else [[s[0]] + rest[0]] + rest[1..]
  }

  /** `sep.join(fields)`. */
  function Join(fields: seq<string>, sep: char): string
  {
    if |fields| == 0 then ""
    else if |fields| == 1 then fields[0]
    else fields[0] + [sep] + Join(fields[1..], sep)
  }

  /** `''.join(fields)`: its characters are exactly those of the fields. */
  function Concat(fields: seq<string>): (r: string)
    ensures |r| == 0 <==> forall i :: 0 <= i < |fields| ==> fields[i] == ""
    ensures forall c :: c in r <==> exists i :: 0 <= i < |fields| && c in fields[i]
  {
    if fields == [] then "" else fields[0] + Concat(fields[1..])
  }

  /** `fields[n:]`, which is empty when there are at most n fields. */
  function DropFields(fields: seq<string>, n: nat): (r: seq<string>)
    ensures |r| == if |fields| <= n then 0 else |fields| - n
  {
    if |fields| <= n then [] else fields[n..]
  }

  /** `s` with every `c` deleted. */
  function Strip(s: string, c: char): (r: string)
    ensures c !in r
    ensures |r| <= |s|
  {
    if s == [] then ""
    else if s[0] == c then Strip(s[1..], c)
    else [s[0]] + Strip(s[1..], c)
  }

  /** What follows the n-th occurrence of `sep` in `s` (all of `s` when n is
      0, nothing when `s` has fewer than n separators). */
  function SkipFields(s: string, sep: char, n: nat): (r: string)
    ensures |r| <= |s|
  {
    if n == 0 then s
    else if s == [] then ""
    else if s[0] == sep then SkipFields(s[1..], sep, n - 1)
    else SkipFields(s[1..], sep, n)
  }

  /** `t` occurs in `s` starting at position `i`. */
  ghost predicate OccursAt(s: string, t: string, i: int)
  {
    0 <= i && i + |t| <= |s| && s[i..i + |t|] == t
  }

  /** An occurrence in the tail is an occurrence one position further on. */
  lemma OccursInTail(s: string, t: string)
    requires s != []
    ensures forall i :: 0 <= i ==> (OccursAt(s[1..], t, i) <==> OccursAt(s, t, i + 1))
  {
    forall i | 0 <= i ensures OccursAt(s[1..], t, i) <==> OccursAt(s, t, i + 1) {
      if i + |t| <= |s| - 1 {
        assert s[1..][i..i + |t|] == s[i + 1..i + 1 + |t|];
      }
    }
  }

  /** `t in s`: true exactly when `t` occurs at some position of `s`. */
  function Contains(s: string, t: string): (r: bool)
    ensures r <==> exists i :: OccursAt(s, t, i)
    decreases |s|
  {
    if |s| < |t| then false
    else if s[..|t|] == t then assert OccursAt(s, t, 0); true
    else
      assert s != [];
      OccursInTail(s, t);
      assert !OccursAt(s, t, 0);
      assert forall i :: OccursAt(s, t, i) ==> i == 0 || OccursAt(s[1..], t, i - 1);
      Contains(s[1..], t)
  }

  /** Joining the fields with the separator gives the string back. */
  lemma {:induction false} JoinSplit(s: string, sep: char)
    ensures Join(Split(s, sep), sep) == s
  {
    if s != [] {
      var rest := Split(s[1..], sep);
      JoinSplit(s[1..], sep);
      if s[0] == sep {
        assert Split(s, sep) == [""] + rest;
        assert ([""] + rest)[1..] == rest;
      } else {
        var fields := [[s[0]] + rest[0]] + rest[1..];
        assert Split(s, sep) == fields;
        if |rest| > 1 {
          assert fields[1..] == rest[1..];
          assert Join(rest, sep) == rest[0] + [sep] + Join(rest[1..], sep);
        }
      }
    }
  }

  /** Concatenating all fields deletes the separators. */
  lemma {:induction false} ConcatSplit(s: string, sep: char)
    ensures Concat(Split(s, sep)) == Strip(s, sep)
  {
    if s != [] {
      var rest := Split(s[1..], sep);
      ConcatSplit(s[1..], sep);
      if s[0] == sep {
        var fields := [""] + rest;
        assert Split(s, sep) == fields;
        assert fields[1..] == rest;
        assert Concat(fields) == "" + Concat(rest);
        assert Strip(s, sep) == Strip(s[1..], sep);
      } else {
        var fields := [[s[0]] + rest[0]] + rest[1..];
        assert Split(s, sep) == fields;
        assert fields[1..] == rest[1..];
        assert Concat(fields) == [s[0]] + rest[0] + Concat(rest[1..]);
        assert Concat(rest) == rest[0] + Concat(rest[1..]);
        assert Strip(s, sep) == [s[0]] + Strip(s[1..], sep);
      }
    }
  }

  lemma DropFieldsCons(x: string, fields: seq<string>, n: nat)
    requires n >= 1
    ensures DropFields([x] + fields, n) == DropFields(fields, n - 1)
  {
    if |fields| > n - 1 {
      assert ([x] + fields)[n..] == fields[n - 1..];
    }
  }

  /** Concatenating the fields from index n on is the text after the n-th
      separator with the remaining separators deleted. */
  lemma {:induction false} ConcatDropSplit(s: string, sep: char, n: nat)
    ensures Concat(DropFields(Split(s, sep), n)) == Strip(SkipFields(s, sep, n), sep)
  {
    if n == 0 {
      ConcatSplit(s, sep);
    } else if s != [] {
      var rest := Split(s[1..], sep);
      if s[0] == sep {
        DropFieldsCons("", rest, n);
        ConcatDropSplit(s[1..], sep, n - 1);
      } else {
        assert rest == [rest[0]] + rest[1..];
        DropFieldsCons([s[0]] + rest[0], rest[1..], n);
        DropFieldsCons(rest[0], rest[1..], n);
        ConcatDropSplit(s[1..], sep, n);
      }
    }
  }

  /** Splitting a text that starts with a separator-free field and a
      separator yields that field followed by the fields of the rest. */
  lemma {:induction false} SplitField(field: string, rest: string, sep: char)
    requires sep !in field
    ensures Split(field + [sep] + rest, sep) == [field] + Split(rest, sep)
  {
    if field == [] {
      assert field + [sep] + rest == [sep] + rest;
      assert ([sep] + rest)[1..] == rest;
    } else {
      var s := field + [sep] + rest;
      assert s[1..] == field[1..] + [sep] + rest;
      SplitField(field[1..], rest, sep);
      assert [field[0]] + field[1..] == field;
    }
  }

  /** A text without the separator is a single field. */
  lemma {:induction false} SplitSingle(s: string, sep: char)
    requires sep !in s
    ensures Split(s, sep) == [s]
  {
    if s != [] {
      SplitSingle(s[1..], sep);
      assert [s[0]] + s[1..] == s;
    }
  }

  /** Splitting the joined fields gives the fields back, when none of them
      holds the separator. */
  lemma {:induction false} SplitJoin(fields: seq<string>, sep: char)
    requires |fields| >= 1
    requires forall i :: 0 <= i < |fields| ==> sep !in fields[i]
    ensures Split(Join(fields, sep), sep) == fields
  {
    if |fields| == 1 {
      SplitSingle(fields[0], sep);
    } else {
      SplitJoin(fields[1..], sep);
      SplitField(fields[0], Join(fields[1..], sep), sep);
      assert [fields[0]] + fields[1..] == fields;
    }
  }
}
