// Splitting text at a separator, as the find/substr loops of the source do, and
// joining it again.
module Text {

  function Split<T(==)>(s: seq<T>, sep: T): (r: seq<seq<T>>)
    ensures |r| >= 1
  {
    if s == [] then [[]]
    else if s[0] == sep then [[]] + Split(s[1..], sep)
    else
      var rest := Split(s[1..], sep);
      [[s[0]] + rest[0]] + rest[1..]
  }

  function Join<T>(parts: seq<seq<T>>, sep: T): seq<T> {
    if parts == [] then []
    else if |parts| == 1 then parts[0]
    else parts[0] + [sep] + Join(parts[1..], sep)
  }

  /** Splitting off a first part that has no separator in it. */
  lemma {:induction false} SplitPart<T>(part: seq<T>, sep: T, rest: seq<T>)
    requires sep !in part
    ensures Split(part, sep) == [part]
    ensures Split(part + [sep] + rest, sep) == [part] + Split(rest, sep)
  {
    if part == [] {
      assert part + [sep] + rest == [sep] + rest;
      assert ([sep] + rest)[1..] == rest;
    } else {
      SplitPart(part[1..], sep, rest);
      var s := part + [sep] + rest;
      assert s[1..] == part[1..] + [sep] + rest;
      var tail := [part[1..]] + Split(rest, sep);
      assert tail[0] == part[1..] && tail[1..] == Split(rest, sep);
      assert [part[0]] + part[1..] == part;
    }
  }

  /** Splitting undoes joining. */
  lemma {:induction false} SplitJoin<T>(parts: seq<seq<T>>, sep: T)
    requires parts != [] && forall k :: 0 <= k < |parts| ==> sep !in parts[k]
    ensures Split(Join(parts, sep), sep) == parts
  {
    if |parts| == 1 {
      SplitPart(parts[0], sep, []);
    } else {
      SplitPart(parts[0], sep, Join(parts[1..], sep));
      SplitJoin(parts[1..], sep);
      assert [parts[0]] + parts[1..] == parts;
    }
  }

  lemma JoinFirst<T>(x: T, first: seq<T>, others: seq<seq<T>>, sep: T)
    ensures Join([[x] + first] + others, sep) == [x] + Join([first] + others, sep)
  {
    var a, b := [[x] + first] + others, [first] + others;
    assert a[1..] == others && b[1..] == others;
    if others != [] {
      assert ([x] + first) + [sep] + Join(others, sep) == [x] + (first + [sep] + Join(others, sep));
    }
  }

  lemma JoinEmptyFirst<T>(parts: seq<seq<T>>, sep: T)
    requires parts != []
    ensures Join([[]] + parts, sep) == [sep] + Join(parts, sep)
  {
    assert ([[]] + parts)[1..] == parts;
    assert [] + [sep] + Join(parts, sep) == [sep] + Join(parts, sep);
  }

  /** Joining undoes splitting, and no part holds the separator. */
  lemma {:induction false} JoinSplit<T>(s: seq<T>, sep: T)
    ensures Join(Split(s, sep), sep) == s
    ensures forall k :: 0 <= k < |Split(s, sep)| ==> sep !in Split(s, sep)[k]
  {
    if s != [] {
      JoinSplit(s[1..], sep);
      var rest := Split(s[1..], sep);
      hide Join;
      assert [s[0]] + s[1..] == s;
      if s[0] == sep {
        JoinEmptyFirst(rest, sep);
      } else {
        JoinFirst(s[0], rest[0], rest[1..], sep);
        assert [rest[0]] + rest[1..] == rest;
      }
    }
  }

  /** The first separator at or after `from`, or the length of `s`. */
  method Find<T(==)>(s: seq<T>, sep: T, from: nat) returns (pos: nat)
    requires from <= |s|
    ensures from <= pos <= |s| && sep !in s[from..pos] && (pos < |s| ==> s[pos] == sep)
  {
    pos := from;
    while pos < |s| && s[pos] != sep
      invariant from <= pos <= |s| && sep !in s[from..pos]
    {
      assert s[from..pos + 1] == s[from..pos] + [s[pos]];
      pos := pos + 1;
    }
  }

  lemma SplitFirst<T>(parts: seq<seq<T>>, s: seq<T>, sep: T, start: nat, pos: nat)
    requires start <= pos < |s| && sep !in s[start..pos] && s[pos] == sep
    ensures parts + Split(s[start..], sep) == (parts + [s[start..pos]]) + Split(s[pos + 1..], sep)
  {
    assert s[start..] == s[start..pos] + [sep] + s[pos + 1..];
    SplitPart(s[start..pos], sep, s[pos + 1..]);
    assert parts + ([s[start..pos]] + Split(s[pos + 1..], sep)) == (parts + [s[start..pos]]) + Split(s[pos + 1..], sep);
  }

  /** The find/substr loop. */
  method SplitText<T(==)>(s: seq<T>, sep: T) returns (parts: seq<seq<T>>)
    ensures parts == Split(s, sep)
  {
    hide Split;
    parts := [];
    var start: nat := 0;
    var pos := Find(s, sep, 0);
    assert s[0..] == s;
    while pos < |s|
      invariant 0 <= start <= pos <= |s|
      invariant sep !in s[start..pos] && (pos < |s| ==> s[pos] == sep)
      invariant Split(s, sep) == parts + Split(s[start..], sep)
      decreases |s| - start
    {
      SplitFirst(parts, s, sep, start, pos);
      parts := parts + [s[start..pos]];
      start := pos + 1;
      pos := Find(s, sep, start);
    }
    assert s[start..pos] == s[start..];
    SplitPart(s[start..], sep, []);
    parts := parts + [s[start..]];
  }

  function NonEmpty<T>(parts: seq<seq<T>>): seq<seq<T>> {
    if parts == [] then []
    else if |parts[0]| > 0 then [parts[0]] + NonEmpty(parts[1..])
    else NonEmpty(parts[1..])
  }

  lemma {:induction false} JoinSnoc<T>(parts: seq<seq<T>>, part: seq<T>, sep: T)
    ensures Join(parts + [part], sep) == if parts == [] then part else Join(parts, sep) + [sep] + part
  {
    if parts != [] {
      JoinSnoc(parts[1..], part, sep);
      assert (parts + [part])[1..] == parts[1..] + [part];
      if |parts| > 1 {
        assert parts[0] + [sep] + (Join(parts[1..], sep) + [sep] + part) == parts[0] + [sep] + Join(parts[1..], sep) + [sep] + part;
      }
    }
  }

  /** The loop that puts a separator before every part but the first. */
  method JoinText<T>(parts: seq<seq<T>>, sep: T) returns (s: seq<T>)
    ensures s == Join(parts, sep)
  {
    s := [];
    for i := 0 to |parts|
      invariant s == Join(parts[..i], sep)
    {
      JoinSnoc(parts[..i], parts[i], sep);
      assert parts[..i] + [parts[i]] == parts[..i + 1];
      if i > 0 {
        s := s + [sep];
      }
      s := s + parts[i];
    }
    assert parts[..|parts|] == parts;
  }
}
