/**
  How a volunteer's list of availability slots is stored: the slots joined with
  a comma into one string. `Split` is the inverse reading, used to state what the
  stored string still tells about the list.
 */
module Availability {

  const Separator: char := ','

  /** The total length of the slots. */
  function TotalLength(parts: seq<string>): nat {
    if parts == [] then 0 else |parts[0]| + TotalLength(parts[1..])
  }

  /** The slots joined with `Separator`, as Python's `",".join(parts)`. */
  function Join(parts: seq<string>): (s: string)
    ensures |parts| == 1 ==> s == parts[0]
    ensures |parts| >= 1 ==> |s| == TotalLength(parts) + |parts| - 1
    ensures (forall i :: 0 <= i < |parts| ==> Separator !in parts[i]) ==>
              multiset(s)[Separator] == if |parts| == 0 then 0 else |parts| - 1
  {
    if |parts| == 0 then ""
    else if |parts| == 1 then parts[0]
    else parts[0] + [Separator] + Join(parts[1..])
  }

  /** The pieces of `s` between separators, as Python's `s.split(",")`; never empty. */
  function Split(s: string): (parts: seq<string>)
    ensures |parts| >= 1
  {
    if s == [] then [""]
    else
      var rest := Split(s[1..]);
      if s[0] == Separator then [""] + rest
      else [[s[0]] + rest[0]] + rest[1..]
  }

  lemma {:induction false} SplitWithoutSeparator(a: string)
    requires Separator !in a
    ensures Split(a) == [a]
  {
    if a != [] {
      SplitWithoutSeparator(a[1..]);
      assert [a[0]] + a[1..] == a;
    }
  }

  lemma {:induction false} SplitAtFirstSeparator(a: string, b: string)
    requires Separator !in a
    ensures Split(a + [Separator] + b) == [a] + Split(b)
  {
    if a == [] {
      assert a + [Separator] + b == [Separator] + b;
      assert ([Separator] + b)[1..] == b;
    } else {
      SplitAtFirstSeparator(a[1..], b);
      var s := a + [Separator] + b;
      assert s[0] == a[0] && s[1..] == a[1..] + [Separator] + b;
      assert [a[0]] + a[1..] == a;
    }
  }

  /**
    Reading the stored string back gives the list, provided the list is not empty
    and no slot contains the separator.
   */
  lemma {:induction false} SplitJoin(parts: seq<string>)
    requires |parts| >= 1
    requires forall i :: 0 <= i < |parts| ==> Separator !in parts[i]
    ensures Split(Join(parts)) == parts
  {
    if |parts| == 1 {
      SplitWithoutSeparator(parts[0]);
    } else {
      SplitJoin(parts[1..]);
      SplitAtFirstSeparator(parts[0], Join(parts[1..]));
      assert [parts[0]] + parts[1..] == parts;
    }
  }

  /**
    The stored string loses information at the edges: no slots and one empty slot
    are stored alike, and so are lists whose slots contain the separator.
   */
  lemma JoinNotInjective()
    ensures Join([]) == Join([""])
    ensures Join(["a,b"]) == Join(["a", "b"])
  {
    assert Join(["a", "b"]) == "a" + [Separator] + Join(["b"]);
  }
}
