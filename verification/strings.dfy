/** String helpers shared by the server and the client models: the
    `split` of Python and JavaScript on a one-character separator, its
    inverse `join`, substring containment, `trim`, and the one-character
    global replace used by the HTML escape. Strings are `seq<char>`. */
module Strings {

  /** Number of occurrences of `c` in `s`. */
  function Occurrences(s: string, c: char): (n: nat)
    ensures n <= |s|
    ensures n == 0 <==> c !in s
  {
    if |s| == 0 then 0 else (if s[0] == c then 1 else 0) + Occurrences(s[1..], c)
  }

  /** `s.split(c)`: the maximal pieces between separators, empty pieces
      included, so "" splits into [""] and "a," into ["a", ""]. */
  function Split(s: string, c: char): (parts: seq<string>)
    ensures |parts| == Occurrences(s, c) + 1
    ensures forall k :: 0 <= k < |parts| ==> c !in parts[k]
  {
    if |s| == 0 then [""]
    else
      var rest := Split(s[1..], c);
      if s[0] == c then [""] + rest
      else [[s[0]] + rest[0]] + rest[1..]
  }

  /** Splitting at the one separator a string holds gives the two sides. */
  lemma {:induction false} SplitAtOnlySeparator(a: string, b: string, c: char)
    requires c !in a && c !in b
    ensures Split(a + [c] + b, c) == [a, b]
  {
    if |a| == 0 {
      assert a + [c] + b == [c] + b;
      assert ([c] + b)[1..] == b;
      SplitWithout(b, c);
    } else {
      assert (a + [c] + b)[1..] == a[1..] + [c] + b;
      SplitAtOnlySeparator(a[1..], b, c);
      assert [a[0]] + a[1..] == a;
    }
  }

  /** A string without the separator splits into itself alone. */
  lemma {:induction false} SplitWithout(s: string, c: char)
    requires c !in s
    ensures Split(s, c) == [s]
  {
    if |s| > 0 {
      SplitWithout(s[1..], c);
      assert [s[0]] + s[1..] == s;
    }
  }

  /** `sep.join(parts)`. */
  function Join(parts: seq<string>, sep: string): string
  {
    if |parts| == 0 then ""
    else if |parts| == 1 then parts[0]
    else parts[0] + sep + Join(parts[1..], sep)
  }

  lemma JoinCons(p: string, parts: seq<string>, sep: string)
    requires |parts| >= 1
    ensures Join([p] + parts, sep) == p + sep + Join(parts, sep)
  {
    assert ([p] + parts)[1..] == parts;
  }

  /** Joining the pieces of a split with the separator gives back the
      original string. */
  lemma {:induction false} JoinSplit(s: string, c: char)
    ensures Join(Split(s, c), [c]) == s
  {
    if |s| > 0 {
      JoinSplit(s[1..], c);
      if s[0] == c {
        JoinSplitSeparator(s, c);
      } else {
        JoinSplitOther(s, c);
      }
    }
  }

  lemma JoinSplitSeparator(s: string, c: char)
    requires |s| > 0 && s[0] == c
    requires Join(Split(s[1..], c), [c]) == s[1..]
    ensures Join(Split(s, c), [c]) == s
  {
    var rest := Split(s[1..], c);
    assert Split(s, c) == [""] + rest;
    JoinCons("", rest, [c]);
    assert s == [c] + s[1..];
  }

  lemma JoinSplitOther(s: string, c: char)
    requires |s| > 0 && s[0] != c
    requires Join(Split(s[1..], c), [c]) == s[1..]
    ensures Join(Split(s, c), [c]) == s
  {
    var rest := Split(s[1..], c);
    assert Split(s, c) == [[s[0]] + rest[0]] + rest[1..];
    JoinIntoHead([s[0]], rest, [c]);
    assert s == [s[0]] + s[1..];
  }

  /** Gluing `x` onto the first part glues it onto the whole join. */
  lemma JoinIntoHead(x: string, parts: seq<string>, sep: string)
    requires |parts| >= 1
    ensures Join([x + parts[0]] + parts[1..], sep) == x + Join(parts, sep)
  {
    if |parts| >= 2 {
      JoinCons(x + parts[0], parts[1..], sep);
      JoinTail(parts, sep);
    } else {
      assert [x + parts[0]] + parts[1..] == [x + parts[0]];
    }
  }

  lemma JoinTail(parts: seq<string>, sep: string)
    requires |parts| >= 2
    ensures Join(parts, sep) == parts[0] + sep + Join(parts[1..], sep)
  {
  }

  /** `text` contains `sub` as a contiguous substring. */
  predicate Contains(text: string, sub: string)
  {
    exists i | 0 <= i <= |text| - |sub| :: OccursAt(text, sub, i)
  }

  /** `sub` occurs in `text` starting at index `i`. */
  predicate OccursAt(text: string, sub: string, i: int)
  {
    0 <= i <= |text| - |sub| && text[i..i + |sub|] == sub
  }

  /** The characters JavaScript's `trim` and `parseInt` skip: the white
      space characters (tab, vertical tab, form feed, space, no-break
      space, the byte-order mark and the Unicode space separators) and the
      line terminators (line feed, carriage return, line and paragraph
      separators). */
  predicate IsSpace(c: char)
  {
    || c == ' ' || c == '\t' || c == '\n' || c == '\r' || c == '\U{000B}' || c == '\U{000C}'
    || c == '\U{00A0}' || c == '\U{1680}' || '\U{2000}' <= c <= '\U{200A}'
    || c == '\U{2028}' || c == '\U{2029}' || c == '\U{202F}' || c == '\U{205F}'
    || c == '\U{3000}' || c == '\U{FEFF}'
  }

  function TrimStart(s: string): (r: string)
    ensures |r| <= |s| && r == s[|s| - |r|..]
    ensures |r| > 0 ==> !IsSpace(r[0])
    ensures forall k :: 0 <= k < |s| - |r| ==> IsSpace(s[k])
  {
    if |s| > 0 && IsSpace(s[0]) then TrimStart(s[1..]) else s
  }

  function TrimEnd(s: string): (r: string)
    ensures |r| <= |s| && r == s[..|r|]
    ensures |r| > 0 ==> !IsSpace(r[|r| - 1])
    ensures forall k :: |r| <= k < |s| ==> IsSpace(s[k])
  {
    if |s| > 0 && IsSpace(s[|s| - 1]) then TrimEnd(s[..|s| - 1]) else s
  }

  /** `s.trim()`: the slice of `s` left after removing white space at both
      ends. */
  function Trim(s: string): (r: string)
    ensures exists i | 0 <= i <= |s| - |r| ::
      && OccursAt(s, r, i)
      && (forall j | 0 <= j < i :: IsSpace(s[j]))
      && (forall j | i + |r| <= j < |s| :: IsSpace(s[j]))
    ensures |r| > 0 ==> !IsSpace(r[0]) && !IsSpace(r[|r| - 1])
  {
    var a := TrimStart(s);
    var r := TrimEnd(a);
    SliceOfSuffix(s, a, r);
    r
  }

  /** A prefix `r` of a suffix `a` of `s`, where `s` holds only blanks
      before `a` and `a` only blanks after `r`, is `s` less blanks at both
      ends. */
  lemma SliceOfSuffix(s: string, a: string, r: string)
    requires |a| <= |s| && a == s[|s| - |a|..]
    requires forall k | 0 <= k < |s| - |a| :: IsSpace(s[k])
    requires |r| <= |a| && r == a[..|r|]
    requires forall k | |r| <= k < |a| :: IsSpace(a[k])
    ensures |r| > 0 ==> r[0] == a[0]
    ensures exists i | 0 <= i <= |s| - |r| ::
      && OccursAt(s, r, i)
      && (forall j | 0 <= j < i :: IsSpace(s[j]))
      && (forall j | i + |r| <= j < |s| :: IsSpace(s[j]))
  {
    var i := |s| - |a|;
    assert s[i..i + |r|] == a[..|r|];
    forall j | i + |r| <= j < |s| ensures IsSpace(s[j]) {
      assert s[j] == a[j - i];
    }
    assert OccursAt(s, r, i);
  }

  /** A piece of `s` never contains a character `s` lacks. */
  lemma TrimKeepsOut(s: string, c: char)
    requires c !in s
    ensures c !in Trim(s)
  {
    var r := Trim(s);
    var i :| 0 <= i <= |s| - |r| && OccursAt(s, r, i);
    forall k | 0 <= k < |r|
      ensures r[k] != c
    {
      assert r[k] == s[i + k];
    }
  }

  /** `s.replace(/c/g, rep)`: every occurrence of the single character `c`
      is replaced by `rep`. */
  function ReplaceChar(s: string, c: char, rep: string): (r: string)
    ensures c !in rep ==> c !in r
    ensures c !in s ==> r == s
  {
    if |s| == 0 then ""
    else (if s[0] == c then rep else [s[0]]) + ReplaceChar(s[1..], c, rep)
  }

  lemma ReplaceSingle(d: char, c: char, rep: string)
    ensures ReplaceChar([d], c, rep) == if d == c then rep else [d]
  {
    assert [d][1..] == [];
  }

  lemma {:induction false} ReplaceCharAppend(a: string, b: string, c: char, rep: string)
    ensures ReplaceChar(a + b, c, rep) == ReplaceChar(a, c, rep) + ReplaceChar(b, c, rep)
  {
    if |a| == 0 {
      assert a + b == b;
    } else {
      assert (a + b)[1..] == a[1..] + b;
      ReplaceCharAppend(a[1..], b, c, rep);
    }
  }
}
