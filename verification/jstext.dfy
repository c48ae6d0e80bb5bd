/** JavaScript's `String.prototype.split` with a one-character separator and
    `Array.prototype.join`, as `decrypt` uses them to cut a record at its
    first ':'. */
module JsText {

  /** `s.split(sep)`: always at least one field ("".split(':') is [""]), and
      one field exactly when the separator does not occur. */
  function Split(s: string, sep: char): (parts: seq<string>)
    ensures |parts| >= 1
    ensures |parts| == 1 <==> sep !in s
    ensures forall i | 0 <= i < |parts| :: sep !in parts[i]
    decreases |s|
  {
    if s == [] then [""]
    else
      var rest := Split(s[1..], sep);
      if s[0] == sep then [""] + rest
      else [[s[0]] + rest[0]] + rest[1..]
  }

  /** `parts.join(sep)`; the empty array joins to "". */
  function Join(parts: seq<string>, sep: char): (r: string)
    ensures |parts| >= 1 ==> parts[0] <= r
    ensures |parts| >= 2 ==> |r| > |parts[0]| && r[|parts[0]|] == sep
    ensures sep in r ==> |parts| >= 2 || (|parts| == 1 && sep in parts[0])
  {
    if |parts| == 0 then ""
    else if |parts| == 1 then parts[0]
    else parts[0] + [sep] + Join(parts[1..], sep)
  }

  /** Gluing a character onto the first field glues it onto the joined string. */
  lemma JoinPrepend(c: char, parts: seq<string>, sep: char)
    requires |parts| >= 1
    ensures Join([[c] + parts[0]] + parts[1..], sep) == [c] + Join(parts, sep)
  {
    if |parts| > 1 {
      var glued := [[c] + parts[0]] + parts[1..];
      assert glued[1..] == parts[1..];
    }
  }

  /** Joining the fields of a split with the same separator rebuilds the string. */
  lemma {:induction false} JoinSplit(s: string, sep: char)
    ensures Join(Split(s, sep), sep) == s
    decreases |s|
  {
    if s != [] {
      var rest := Split(s[1..], sep);
      JoinSplit(s[1..], sep);
      if s[0] == sep {
        assert Split(s, sep) == [""] + rest;
        assert ([""] + rest)[1..] == rest;
      } else {
        JoinPrepend(s[0], rest, sep);
      }
      assert [s[0]] + s[1..] == s;
    }
  }

  /** Splitting a separator-free text glued onto anything: the text lands
      at the head of the first field. */
  lemma {:induction false} SplitGlued(a: string, t: string, sep: char)
    requires sep !in a
    ensures Split(a + t, sep) == [a + Split(t, sep)[0]] + Split(t, sep)[1..]
    decreases |a|
  {
    var tail := Split(t, sep);
    if a != [] {
      SplitGlued(a[1..], t, sep);
      assert (a + t)[0] == a[0] != sep;
      assert (a + t)[1..] == a[1..] + t;
      assert [a[0]] + (a[1..] + tail[0]) == a + tail[0];
    } else {
      assert a + t == t && a + tail[0] == tail[0];
      assert tail == [tail[0]] + tail[1..];
    }
  }

  /** The other round trip: splitting the join of separator-free fields gives
      the fields back (for at least one field, since [] joins to "" and "" splits to [""]). */
  lemma {:induction false} SplitJoin(parts: seq<string>, sep: char)
    requires |parts| >= 1
    requires forall i | 0 <= i < |parts| :: sep !in parts[i]
    ensures Split(Join(parts, sep), sep) == parts
    decreases |parts|
  {
    if |parts| == 1 {
      SplitGlued(parts[0], "", sep);
      assert parts[0] + "" == parts[0];
    } else {
      var rest := Join(parts[1..], sep);
      SplitJoin(parts[1..], sep);
      assert ([sep] + rest)[1..] == rest;
      assert Split([sep] + rest, sep) == [""] + parts[1..];
      assert parts[0] + "" == parts[0];
      SplitGlued(parts[0], [sep] + rest, sep);
      assert parts[0] + [sep] + rest == parts[0] + ([sep] + rest);
      assert parts == [parts[0]] + parts[1..];
    }
  }

  /** A string with a separator in it is cut in exactly one way at its first
      separator: the part before is separator-free. */
  lemma FirstSeparatorUnique(a: string, b: string, c: string, d: string, sep: char)
    requires sep !in a && sep !in c
    requires a + [sep] + b == c + [sep] + d
    ensures a == c && b == d
  {
    var s := a + [sep] + b;
    assert s[|a|] == sep && s[|c|] == sep;
    assert forall i | 0 <= i < |a| :: s[i] == a[i] != sep;
    assert forall i | 0 <= i < |c| :: s[i] == c[i] != sep;
    assert |a| == |c|;
    assert a == s[..|a|] == c;
    assert b == s[|a| + 1..] == d;
  }
}
