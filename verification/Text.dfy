/** Trimming of strings and the cleaning of lists of them, as the services apply it to whatever an operator
    types (`sanitizeTags` and its copies). */
module Text {

  /** Unicode's White_Space. */
  predicate IsSpace(c: char) {
    || '\t' <= c <= '\r' || c == ' ' || c == '\U{85}' || c == '\U{A0}' || c == '\U{1680}'
    || '\U{2000}' <= c <= '\U{200A}' || c == '\U{2028}' || c == '\U{2029}' || c == '\U{202F}'
    || c == '\U{205F}' || c == '\U{3000}'
  }

  /** These are its 25 code points. */
  lemma SpacesListed(c: char)
    ensures IsSpace(c) <==> c as int in {
              0x9, 0xA, 0xB, 0xC, 0xD, 0x20, 0x85, 0xA0, 0x1680,
              0x2000, 0x2001, 0x2002, 0x2003, 0x2004, 0x2005, 0x2006, 0x2007, 0x2008, 0x2009, 0x200A,
              0x2028, 0x2029, 0x202F, 0x205F, 0x3000}
  {
  }

  predicate Trimmed(s: string) {
    s == "" || (!IsSpace(s[0]) && !IsSpace(s[|s| - 1]))
  }

  function Trim(s: string): string {
    if s == "" then s
    else if IsSpace(s[0]) then Trim(s[1..])
    else if IsSpace(s[|s| - 1]) then Trim(s[..|s| - 1])
    else s
  }

  lemma {:induction false} TrimTrims(s: string)
    ensures Trimmed(Trim(s))
  {
    if s != "" && IsSpace(s[0]) {
      TrimTrims(s[1..]);
    } else if s != "" && IsSpace(s[|s| - 1]) {
      TrimTrims(s[..|s| - 1]);
    }
  }

  /** Trimming twice is trimming once. */
  lemma TrimTwice(s: string)
    ensures Trim(Trim(s)) == Trim(s)
  {
    TrimTrims(s);
  }

  /** The trimmed, non-empty items in order of first appearance, without those already `seen`. */
  function Clean(items: seq<string>, seen: set<string>): seq<string> {
    if items == [] then []
    else
      var t := Trim(items[0]);
      if t == "" || t in seen then Clean(items[1..], seen) else [t] + Clean(items[1..], seen + {t})
  }

  method CleanList(items: seq<string>) returns (out: seq<string>)
    ensures out == Clean(items, {})
  {
    out := [];
    var seen := {};
    for i := 0 to |items|
      invariant out + Clean(items[i..], seen) == Clean(items, {})
    {
      var trimmed := Trim(items[i]);
      assert items[i..][0] == items[i] && items[i..][1..] == items[i + 1..];
      if trimmed != "" && trimmed !in seen {
        assert out + ([trimmed] + Clean(items[i + 1..], seen + {trimmed}))
            == (out + [trimmed]) + Clean(items[i + 1..], seen + {trimmed});
        seen := seen + {trimmed};
        out := out + [trimmed];
      }
    }
  }

  predicate Distinct<T(==)>(s: seq<T>) {
    forall i, j :: 0 <= i < j < |s| ==> s[i] != s[j]
  }

  /** What a cleaned list is: trimmed, non-empty, distinct entries. */
  predicate IsClean(items: seq<string>) {
    Distinct(items) && forall i :: 0 <= i < |items| ==> items[i] != "" && Trimmed(items[i])
  }

  predicate Mentions(items: seq<string>, t: string) {
    exists i :: 0 <= i < |items| && Trim(items[i]) == t
  }

  /** Cleaning loses nothing but blanks and repetitions, and adds nothing. */
  lemma {:induction false} CleanKeeps(items: seq<string>, seen: set<string>)
    ensures IsClean(Clean(items, seen))
    ensures forall t :: t in Clean(items, seen) <==> t != "" && t !in seen && Mentions(items, t)
  {
    if items != [] {
      var t := Trim(items[0]);
      var rest := items[1..];
      TrimTrims(items[0]);
      CleanKeeps(rest, seen);
      CleanKeeps(rest, seen + {t});
      forall u
        ensures Mentions(items, u) <==> u == t || Mentions(rest, u)
      {
        MentionsMore(items, u);
      }
    }
  }

  lemma MentionsMore(items: seq<string>, u: string)
    requires items != []
    ensures Mentions(items, u) <==> u == Trim(items[0]) || Mentions(items[1..], u)
  {
    if Mentions(items[1..], u) {
      var i :| 0 <= i < |items[1..]| && Trim(items[1..][i]) == u;
      assert Trim(items[i + 1]) == u;
    }
    if Mentions(items, u) && u != Trim(items[0]) {
      var i :| 0 <= i < |items| && Trim(items[i]) == u;
      assert items[1..][i - 1] == items[i];
    }
  }

  /** A clean list is left as it is; so cleaning twice is cleaning once. */
  lemma {:induction false} CleanIsFixed(items: seq<string>, seen: set<string>)
    requires IsClean(items) && forall i :: 0 <= i < |items| ==> items[i] !in seen
    ensures Clean(items, seen) == items
  {
    if items != [] {
      assert items == [items[0]] + items[1..];
      CleanIsFixed(items[1..], seen + {items[0]});
    }
  }

  lemma CleanTwice(items: seq<string>)
    ensures Clean(Clean(items, {}), {}) == Clean(items, {})
  {
    CleanKeeps(items, {});
    CleanIsFixed(Clean(items, {}), {});
  }

  // ----- Comparing lists by joining them -----

  const SEPARATOR: char := '\0'

  function Join(items: seq<string>): string {
    if items == [] then ""
    else if |items| == 1 then items[0]
    else items[0] + [SEPARATOR] + Join(items[1..])
  }

  /** The pieces of a text between its separators; at least one. */
  function Split(s: string): (r: seq<string>)
    ensures r != []
  {
    if s == "" then [""] else Push(s[0], Split(s[1..]))
  }

  /** The pieces of all items. */
  function Pieces(items: seq<string>): seq<string> {
    if items == [] then [] else Split(items[0]) + Pieces(items[1..])
  }

  function Push(c: char, r: seq<string>): seq<string>
    requires r != []
  {
    if c == SEPARATOR then [""] + r else [[c] + r[0]] + r[1..]
  }

  lemma PushAppend(c: char, r: seq<string>, q: seq<string>)
    requires r != []
    ensures Push(c, r + q) == Push(c, r) + q
  {
    assert (r + q)[0] == r[0] && (r + q)[1..] == r[1..] + q;
  }

  lemma SplitHead(c: char, rest: string)
    ensures Split([c] + rest) == Push(c, Split(rest))
  {
    assert ([c] + rest)[1..] == rest;
  }

  lemma {:induction false} SplitAppend(x: string, y: string)
    ensures Split(x + [SEPARATOR] + y) == Split(x) + Split(y)
  {
    if x == "" {
      SplitHead(SEPARATOR, y);
      assert x + [SEPARATOR] + y == [SEPARATOR] + y;
    } else {
      var c, rest := x[0], x[1..];
      var more := rest + [SEPARATOR] + y;
      SplitAppend(rest, y);
      assert x == [c] + rest && x + [SEPARATOR] + y == [c] + more;
      SplitHead(c, rest);
      SplitHead(c, more);
      PushAppend(c, Split(rest), Split(y));
    }
  }

  /** Splitting what was joined gives the pieces of the items. */
  lemma {:induction false} SplitJoined(items: seq<string>)
    requires items != []
    ensures Split(Join(items)) == Pieces(items)
  {
    if |items| == 1 {
      assert Pieces(items[1..]) == [];
    } else {
      SplitJoined(items[1..]);
      SplitAppend(items[0], Join(items[1..]));
    }
  }

  /** Joining what was split gives the text back. */
  lemma {:induction false} JoinSplit(s: string)
    ensures Join(Split(s)) == s
  {
    if s != "" {
      var rest := Split(s[1..]);
      JoinSplit(s[1..]);
      assert s == [s[0]] + s[1..];
      if s[0] == SEPARATOR {
        assert ([""] + rest)[1..] == rest;
      } else {
        var glued := [[s[0]] + rest[0]] + rest[1..];
        assert glued[1..] == rest[1..];
      }
    }
  }

  /** Joins of lists are equal exactly when the lists have the same pieces. */
  lemma JoinExactly(a: seq<string>, b: seq<string>)
    requires (a != [] && b != []) || ("" !in a && "" !in b)
    ensures Join(a) == Join(b) <==> Pieces(a) == Pieces(b)
  {
    if a != [] {
      SplitJoined(a);
      JoinSplit(Join(a));
    }
    if b != [] {
      SplitJoined(b);
      JoinSplit(Join(b));
    }
    assert a != [] && "" !in a ==> a[0] != "" && Join(a) != "";
    assert b != [] && "" !in b ==> b[0] != "" && Join(b) != "";
  }

  lemma {:induction false} SplitWhole(s: string)
    requires SEPARATOR !in s
    ensures Split(s) == [s]
  {
    if s != "" {
      SplitWhole(s[1..]);
      assert s == [s[0]] + s[1..];
    }
  }

  /** Items without the separator are their own pieces. */
  lemma {:induction false} WholePieces(items: seq<string>)
    requires forall i :: 0 <= i < |items| ==> SEPARATOR !in items[i]
    ensures Pieces(items) == items
  {
    if items != [] {
      SplitWhole(items[0]);
      WholePieces(items[1..]);
      assert items == [items[0]] + items[1..];
    }
  }
}
