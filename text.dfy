/** Small operations on character sequences used to state what the parser keeps
    of its input: occurrence counts, splitting at a separator and filtering. */
module Text {

  /** Number of occurrences of x in s. */
  function Count(s: string, x: char): (n: nat)
    ensures n <= |s|
  {
    if s == [] then 0
    else Count(s[..|s| - 1], x) + (if s[|s| - 1] == x then 1 else 0)
  }

  /** The pieces of s between occurrences of sep, in order; always at least one piece. */
  function Split(s: string, sep: char): (r: seq<string>)
    ensures |r| == Count(s, sep) + 1
  {
    if s == [] then [[]]
    else
      var init := Split(s[..|s| - 1], sep);
      var c := s[|s| - 1];
      if c == sep then init + [[]]
      else init[..|init| - 1] + [init[|init| - 1] + [c]]
  }

  /** The pieces joined back with sep between them. */
  function Join(parts: seq<string>, sep: char): string
    requires |parts| >= 1
  {
    if |parts| == 1 then parts[0]
    else Join(parts[..|parts| - 1], sep) + [sep] + parts[|parts| - 1]
  }

  /** How Split and Count extend by one character. */
  lemma SplitSnoc(s: string, c: char, sep: char)
    ensures var ps := Split(s, sep);
            Split(s + [c], sep) == if c == sep then ps + [[]] else ps[..|ps| - 1] + [ps[|ps| - 1] + [c]]
    ensures Count(s + [c], sep) == Count(s, sep) + (if c == sep then 1 else 0)
  {
    assert (s + [c])[..|s|] == s;
  }

  /** Splitting loses nothing: joining the pieces gives back the input. */
  lemma {:induction false} JoinSplit(s: string, sep: char)
    ensures Join(Split(s, sep), sep) == s
  {
    if s != [] {
      var init, c := s[..|s| - 1], s[|s| - 1];
      assert s == init + [c];
      JoinSplit(init, sep);
      SplitSnoc(init, c, sep);
      var ps := Split(init, sep);
      var front := ps[..|ps| - 1];
      var last := ps[|ps| - 1];
      if c == sep {
        var r := ps + [[]];
        assert r[..|r| - 1] == ps;
        assert Join(r, sep) == Join(ps, sep) + [sep] + [];
      } else if |ps| == 1 {
        assert Join([last + [c]], sep) == last + [c];
      } else {
        var r := front + [last + [c]];
        assert r[..|r| - 1] == front;
        assert ps == front + [last];
        assert Join(ps, sep) == Join(front, sep) + [sep] + last;
        assert Join(r, sep) == Join(front, sep) + [sep] + (last + [c]);
      }
    }
  }

  /** A string without the separator is a single piece. */
  lemma {:induction false} SplitNoSep(s: string, sep: char)
    requires sep !in s
    ensures Split(s, sep) == [s]
  {
    if s != [] {
      var init := s[..|s| - 1];
      assert sep !in init by { assert forall k :: 0 <= k < |init| ==> init[k] == s[k]; }
      SplitNoSep(init, sep);
      assert init + [s[|s| - 1]] == s;
    }
  }

  /** One character that is not the separator is one piece. */
  lemma SplitOne(c: char, sep: char)
    requires c != sep
    ensures Split([c], sep) == [[c]]
  {
    SplitSnoc([], c, sep);
    assert [] + [c] == [c];
  }

  /** Extending the last piece of a concatenation extends the last piece of its right part. */
  lemma ExtendLast(ps: seq<string>, qs: seq<string>, c: char)
    requires |qs| >= 1
    ensures |ps + qs| >= 1
    ensures (ps + qs)[..|ps + qs| - 1] + [(ps + qs)[|ps + qs| - 1] + [c]]
         == ps + (qs[..|qs| - 1] + [qs[|qs| - 1] + [c]])
  {
    var both := ps + qs;
    assert both[..|both| - 1] == ps + qs[..|qs| - 1];
  }

  /** When x splits into some pieces followed by the pieces of u, a separator after both adds an
      empty piece to both. */
  lemma {:induction false} SplitAppendSep(x: string, ps: seq<string>, u: string, sep: char)
    requires Split(x, sep) == ps + Split(u, sep)
    ensures Split(x + [sep], sep) == ps + Split(u + [sep], sep)
  {
    SplitSnoc(x, sep, sep);
    SplitSnoc(u, sep, sep);
    assert (ps + Split(u, sep)) + [[]] == ps + (Split(u, sep) + [[]]);
  }

  /** When x splits into some pieces followed by the pieces of u, another character after both
      extends the last piece of both. */
  lemma {:induction false} SplitAppendOther(x: string, ps: seq<string>, u: string, c: char, sep: char)
    requires c != sep
    requires Split(x, sep) == ps + Split(u, sep)
    ensures Split(x + [c], sep) == ps + Split(u + [c], sep)
  {
    SplitSnoc(x, c, sep);
    SplitSnoc(u, c, sep);
    ExtendLast(ps, Split(u, sep), c);
  }

  /** Splitting a string, a separator and another string splits the two strings apart. */
  lemma {:induction false} SplitConcat(s: string, t: string, sep: char)
    ensures Split(s + [sep] + t, sep) == Split(s, sep) + Split(t, sep)
  {
    var a := s + [sep];
    if t == [] {
      assert a + t == a;
      SplitSnoc(s, sep, sep);
    } else {
      var u, c := t[..|t| - 1], t[|t| - 1];
      assert t == u + [c];
      assert a + t == (a + u) + [c];
      SplitConcat(s, u, sep);
      if c == sep {
        SplitAppendSep(a + u, Split(s, sep), u, sep);
      } else {
        SplitAppendOther(a + u, Split(s, sep), u, c, sep);
      }
    }
  }

  /** Joining pieces that hold no separator and splitting again gives back the pieces. */
  lemma {:induction false} SplitJoin(parts: seq<string>, sep: char)
    requires |parts| >= 1
    requires forall k :: 0 <= k < |parts| ==> sep !in parts[k]
    ensures Split(Join(parts, sep), sep) == parts
  {
    var last := parts[|parts| - 1];
    assert Split(last, sep) == [last] by { SplitNoSep(last, sep); }
    if |parts| == 1 {
      assert parts == [last];
    } else {
      var init := parts[..|parts| - 1];
      assert Join(parts, sep) == Join(init, sep) + [sep] + last;
      assert Split(Join(init, sep), sep) == init by {
        assert forall k :: 0 <= k < |init| ==> init[k] == parts[k];
        SplitJoin(init, sep);
      }
      assert Split(Join(init, sep) + [sep] + last, sep) == init + [last] by {
        SplitConcat(Join(init, sep), last, sep);
      }
      assert parts == init + [last];
    }
  }

  /** A character that is neither the separator nor in any piece is not in the joined string. */
  lemma {:induction false} JoinAvoids(parts: seq<string>, sep: char, x: char)
    requires |parts| >= 1 && x != sep
    requires forall k :: 0 <= k < |parts| ==> x !in parts[k]
    ensures x !in Join(parts, sep)
  {
    if |parts| > 1 {
      JoinAvoids(parts[..|parts| - 1], sep, x);
    }
  }

  /** The joined string starts with the first piece. */
  lemma {:induction false} JoinStartsWithFirst(parts: seq<string>, sep: char)
    requires |parts| >= 1
    ensures parts[0] <= Join(parts, sep)
  {
    if |parts| > 1 {
      JoinStartsWithFirst(parts[..|parts| - 1], sep);
    }
  }

  /** s with every space removed. */
  function DropSpaces(s: string): string
  {
    if s == [] then []
    else DropSpaces(s[..|s| - 1]) + (if s[|s| - 1] == ' ' then [] else [s[|s| - 1]])
  }

  /** How DropSpaces extends by one character. */
  lemma DropSpacesSnoc(s: string, c: char)
    ensures DropSpaces(s + [c]) == DropSpaces(s) + (if c == ' ' then [] else [c])
  {
    assert (s + [c])[..|s|] == s;
  }

  /** Dropping spaces leaves no space, removes exactly the spaces, and keeps every other character. */
  lemma {:induction false} DropSpacesFilters(s: string)
    ensures ' ' !in DropSpaces(s)
    ensures |DropSpaces(s)| + Count(s, ' ') == |s|
    ensures forall c :: c != ' ' && c in s ==> c in DropSpaces(s)
    ensures forall c :: c in DropSpaces(s) ==> c in s
  {
    if s != [] {
      var u, c := s[..|s| - 1], s[|s| - 1];
      assert s == u + [c];
      DropSpacesFilters(u);
      DropSpacesSnoc(u, c);
      SplitSnoc(u, c, ' ');
    }
  }

  /** Dropping spaces works piece by piece and keeps the order of what it keeps. */
  lemma {:induction false} DropSpacesAppend(s: string, t: string)
    ensures DropSpaces(s + t) == DropSpaces(s) + DropSpaces(t)
  {
    if t == [] {
      assert s + t == s;
    } else {
      var u, c := t[..|t| - 1], t[|t| - 1];
      var k: string := if c == ' ' then [] else [c];
      assert t == u + [c];
      assert s + t == (s + u) + [c];
      DropSpacesAppend(s, u);
      DropSpacesSnoc(s + u, c);
      DropSpacesSnoc(u, c);
      assert (DropSpaces(s) + DropSpaces(u)) + k == DropSpaces(s) + (DropSpaces(u) + k);
    }
  }

  /** A string without spaces is left as it is. */
  lemma {:induction false} DropSpacesKeeps(s: string)
    requires ' ' !in s
    ensures DropSpaces(s) == s
  {
    if s != [] {
      DropSpacesKeeps(s[..|s| - 1]);
      assert s == s[..|s| - 1] + [s[|s| - 1]];
    }
  }
}
