/** Splitting a token on `.` (Rust's `str::split(".")` collected into a
    vector) and joining parts with `.` (`format!("{}.{}", ..)`). */
module Segments {

  const Separator: char := '.'

  /** Number of separators in a string. */
  function Separators(s: string): nat
    decreases |s|
  {
    if s == [] then 0 else (if s[0] == Separator then 1 else 0) + Separators(s[1..])
  }

  /** The pieces between separators, empty pieces included: one more piece
      than there are separators, and no piece holds a separator. */
  function Split(s: string): (parts: seq<string>)
    ensures |parts| == Separators(s) + 1
    ensures forall i :: 0 <= i < |parts| ==> Separator !in parts[i]
    decreases |s|
  {
    if s == [] then
      [""]
    else
      var rest := Split(s[1..]);
      if s[0] == Separator then [""] + rest else [[s[0]] + rest[0]] + rest[1..]
  }

  /** The parts with a separator between each two. */
  function Join(parts: seq<string>): string
    requires |parts| >= 1
    decreases |parts|
  {
    if |parts| == 1 then parts[0] else parts[0] + [Separator] + Join(parts[1..])
  }

  /** Joining the pieces of a split gives back the string. */
  lemma {:induction false} JoinSplit(s: string)
    ensures Join(Split(s)) == s
    decreases |s|
  {
    if s != [] {
      JoinSplit(s[1..]);
      var rest := Split(s[1..]);
      if s[0] != Separator {
        if |rest| == 1 {
          assert Split(s) == [[s[0]] + rest[0]];
        } else {
          assert Split(s)[1..] == rest[1..];
        }
      } else {
        assert Split(s)[1..] == rest;
      }
      assert s == [s[0]] + s[1..];
    }
  }

  /** A piece without separators in front of `t` becomes part of the first
      piece of `t`. */
  lemma {:induction false} SplitPrefix(p: string, t: string)
    requires Separator !in p
    ensures Split(p + t) == [p + Split(t)[0]] + Split(t)[1..]
    decreases |p|
  {
    if p != [] {
      assert (p + t)[0] == p[0];
      assert (p + t)[1..] == p[1..] + t;
      SplitPrefix(p[1..], t);
      assert [p[0]] + (p[1..] + Split(t)[0]) == p + Split(t)[0];
    } else {
      assert p + t == t;
      assert p + Split(t)[0] == Split(t)[0];
      assert Split(t) == [Split(t)[0]] + Split(t)[1..];
    }
  }

  /** Splitting a join of separator-free parts gives back the parts. */
  lemma {:induction false} SplitJoin(parts: seq<string>)
    requires |parts| >= 1
    requires forall i :: 0 <= i < |parts| ==> Separator !in parts[i]
    ensures Split(Join(parts)) == parts
    decreases |parts|
  {
    if |parts| == 1 {
      SplitPrefix(parts[0], "");
      assert parts[0] + "" == parts[0];
    } else {
      var tail := [Separator] + Join(parts[1..]);
      SplitJoin(parts[1..]);
      assert tail[1..] == Join(parts[1..]);
      assert Split(tail) == [""] + parts[1..];
      assert Join(parts) == parts[0] + tail;
      SplitPrefix(parts[0], tail);
      assert parts[0] + "" == parts[0];
      assert parts == [parts[0]] + parts[1..];
    }
  }

  /** Appending a separator and a separator-free piece adds that piece as a new last part. */
  lemma {:induction false} SplitAppend(s: string, t: string)
    requires Separator !in t
    ensures Split(s + [Separator] + t) == Split(s) + [t]
    decreases |s|
  {
    var u := s + [Separator] + t;
    if s == [] {
      assert u == [Separator] + t && u[1..] == t;
      SplitPrefix(t, "");
      assert t + "" == t;
    } else {
      assert u[0] == s[0] && u[1..] == s[1..] + [Separator] + t;
      SplitAppend(s[1..], t);
      var rest := Split(s[1..]);
      if s[0] != Separator {
        assert (rest + [t])[1..] == rest[1..] + [t];
      }
    }
  }

  /** Three parts joined: the first, a separator, the second, a separator, the third. */
  lemma JoinThree(parts: seq<string>)
    requires |parts| == 3
    ensures Join(parts) == parts[0] + [Separator] + parts[1] + [Separator] + parts[2]
  {
    assert parts[1..][1..] == [parts[2]];
    assert Join(parts[1..]) == parts[1] + [Separator] + parts[2];
  }
}
