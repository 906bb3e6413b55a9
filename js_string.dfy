/** The JavaScript string and array primitives the application relies on
    (`startsWith`, `endsWith`, `includes`, `indexOf`, `split`, `join`,
    `replace` with a string pattern, `trim`, `toLowerCase`, `toUpperCase`),
    stated over sequences so that they serve both plain strings and the
    renderer's styled token strings. */
module JsString {

  datatype Option<+T> = None | Some(value: T)

  /** `p` occurs in `s` at index `i`. */
  predicate OccursAt<T(==)>(s: seq<T>, p: seq<T>, i: nat) {
    i + |p| <= |s| && s[i..i + |p|] == p
  }

  predicate StartsWith<T(==)>(s: seq<T>, p: seq<T>) {
    |p| <= |s| && s[..|p|] == p
  }

  predicate EndsWith<T(==)>(s: seq<T>, p: seq<T>) {
    |p| <= |s| && s[|s| - |p|..] == p
  }

  /** `s.indexOf(p, from)`: the first occurrence at or after `from`, or -1. */
  function IndexOfFrom<T(==)>(s: seq<T>, p: seq<T>, from: nat): (r: int)
    ensures r == -1 || (from <= r && OccursAt(s, p, r))
    ensures r == -1 ==> forall i :: from <= i ==> !OccursAt(s, p, i)
    ensures r >= 0 ==> forall i :: from <= i < r ==> !OccursAt(s, p, i)
    decreases |s| - from
  {
    if from + |p| > |s| then -1
    else if OccursAt(s, p, from) then from
    else IndexOfFrom(s, p, from + 1)
  }

  function IndexOf<T(==)>(s: seq<T>, p: seq<T>): int {
    IndexOfFrom(s, p, 0)
  }

  /** `s.includes(p)`. */
  predicate Contains<T(==)>(s: seq<T>, p: seq<T>) {
    IndexOf(s, p) >= 0
  }

  lemma ContainsAt<T>(s: seq<T>, p: seq<T>, i: nat)
    requires OccursAt(s, p, i)
    ensures Contains(s, p) && IndexOf(s, p) <= i
  {
  }

  /** A string without the pattern's first element holds no occurrence. */
  lemma NoFirstNoOccurrence<T>(s: seq<T>, p: seq<T>)
    requires |p| > 0 && p[0] !in s
    ensures !Contains(s, p)
  {
    forall i: nat | i + |p| <= |s| ensures !OccursAt(s, p, i) {
      assert s[i..i + |p|][0] == s[i];
    }
  }

  /** After a prefix free of the pattern's first element, the first
      occurrence is the one right behind the prefix. */
  lemma IndexOfAfterFree<T>(a: seq<T>, p: seq<T>, rest: seq<T>)
    requires |p| > 0 && p[0] !in a
    ensures IndexOf(a + p + rest, p) == |a|
  {
    var s := a + p + rest;
    forall i: nat | i < |a| ensures !OccursAt(s, p, i) {
      assert s[i] == a[i];
      if i + |p| <= |s| {
        assert s[i..i + |p|][0] == s[i];
      }
    }
    assert s[|a|..|a| + |p|] == p;
    ContainsAt(s, p, |a|);
  }

  /** `s.replace(p, r)` with a string pattern: only the first occurrence. */
  function ReplaceFirst<T(==)>(s: seq<T>, p: seq<T>, r: seq<T>): (res: seq<T>)
    ensures !Contains(s, p) ==> res == s
    ensures Contains(s, p) ==>
              res == s[..IndexOf(s, p)] + r + s[IndexOf(s, p) + |p|..]
  {
    var i := IndexOf(s, p);
    if i < 0 then s else s[..i] + r + s[i + |p|..]
  }

  /** `s.split(sep)` for a non-empty separator. */
  function Split<T(==)>(s: seq<T>, sep: seq<T>): (parts: seq<seq<T>>)
    requires |sep| > 0
    ensures |parts| >= 1
    decreases |s|
  {
    var i := IndexOf(s, sep);
    if i < 0 then [s] else [s[..i]] + Split(s[i + |sep|..], sep)
  }

  /** `parts.join(sep)`. */
  function Join<T>(parts: seq<seq<T>>, sep: seq<T>): seq<T> {
    if |parts| == 0 then []
    else if |parts| == 1 then parts[0]
    else parts[0] + sep + Join(parts[1..], sep)
  }

  function Concat<T>(parts: seq<seq<T>>): seq<T> {
    if parts == [] then [] else parts[0] + Concat(parts[1..])
  }

  lemma ConcatAppend<T>(parts: seq<seq<T>>, last: seq<T>)
    ensures Concat(parts + [last]) == Concat(parts) + last
  {
    if parts != [] {
      assert (parts + [last])[1..] == parts[1..] + [last];
      ConcatAppend(parts[1..], last);
    }
  }

  lemma {:induction false} JoinAppend<T>(parts: seq<seq<T>>, sep: seq<T>, last: seq<T>)
    requires |parts| >= 1
    ensures Join(parts + [last], sep) == Join(parts, sep) + sep + last
  {
    if |parts| == 1 {
    } else {
      assert (parts + [last])[1..] == parts[1..] + [last];
      JoinAppend(parts[1..], sep, last);
    }
  }

  /** Splitting and joining again with the same separator gives back the
      original string. */
  lemma {:induction false} JoinSplit<T>(s: seq<T>, sep: seq<T>)
    requires |sep| > 0
    ensures Join(Split(s, sep), sep) == s
    decreases |s|
  {
    var i := IndexOf(s, sep);
    if i >= 0 {
      var rest := s[i + |sep|..];
      JoinSplit(rest, sep);
      SplitFirst(s, sep);
      var parts := Split(rest, sep);
      JoinCons(s[..i], parts, sep);
    }
  }

  /** One step of a split: the text before the first occurrence, then the
      split of what follows it. */
  lemma SplitFirst<T>(s: seq<T>, sep: seq<T>)
    requires |sep| > 0 && IndexOf(s, sep) >= 0
    ensures var i := IndexOf(s, sep);
      && Split(s, sep) == [s[..i]] + Split(s[i + |sep|..], sep)
      && s == s[..i] + sep + s[i + |sep|..]
  {
    SplitAround(s, sep, IndexOf(s, sep));
  }

  /** A sequence is the text before an occurrence, the occurrence and the text after it. */
  lemma SplitAround<T>(s: seq<T>, sep: seq<T>, i: nat)
    requires OccursAt(s, sep, i)
    ensures s == s[..i] + sep + s[i + |sep|..]
  {
    assert s == s[..i] + s[i..i + |sep|] + s[i + |sep|..];
  }

  /** Joining a part in front of at least one more. */
  lemma JoinCons<T>(head: seq<T>, parts: seq<seq<T>>, sep: seq<T>)
    requires |parts| >= 1
    ensures Join([head] + parts, sep) == head + sep + Join(parts, sep)
  {
    assert ([head] + parts)[1..] == parts;
  }

  /** No part of a split contains the separator. */
  lemma {:induction false} SplitPartsFree<T>(s: seq<T>, sep: seq<T>)
    requires |sep| > 0
    ensures forall k :: 0 <= k < |Split(s, sep)| ==> !Contains(Split(s, sep)[k], sep)
    decreases |s|
  {
    var i := IndexOf(s, sep);
    if i >= 0 {
      var head, rest := s[..i], s[i + |sep|..];
      HeadFree(s, sep);
      SplitPartsFree(rest, sep);
      var parts := Split(s, sep);
      assert parts == [head] + Split(rest, sep);
      forall k | 0 <= k < |parts| ensures !Contains(parts[k], sep) {
        if k > 0 {
          assert parts[k] == Split(rest, sep)[k - 1];
        }
      }
    } else {
      assert Split(s, sep) == [s];
    }
  }

  /** An element missing from a string is missing from every part of its
      split. */
  lemma {:induction false} SplitPartsWithin<T>(s: seq<T>, sep: seq<T>, c: T)
    requires |sep| > 0 && c !in s
    ensures forall k :: 0 <= k < |Split(s, sep)| ==> c !in Split(s, sep)[k]
    decreases |s|
  {
    var i := IndexOf(s, sep);
    if i >= 0 {
      var head, rest := s[..i], s[i + |sep|..];
      assert forall j :: 0 <= j < |head| ==> head[j] == s[j];
      assert forall j :: 0 <= j < |rest| ==> rest[j] == s[i + |sep| + j];
      SplitPartsWithin(rest, sep, c);
      var parts := Split(s, sep);
      assert parts == [head] + Split(rest, sep);
      forall k | 0 <= k < |parts| ensures c !in parts[k] {
        if k > 0 {
          assert parts[k] == Split(rest, sep)[k - 1];
        }
      }
    } else {
      assert Split(s, sep) == [s];
    }
  }

  /** A string that does not include `[c]` holds no `c`. */
  lemma AbsentNotIn<T>(s: seq<T>, c: T)
    requires !Contains(s, [c])
    ensures c !in s
  {
    forall i | 0 <= i < |s| ensures s[i] != c {
      assert !OccursAt(s, [c], i);
      assert s[i..i + 1] == [s[i]];
    }
  }

  /** The text before the first occurrence holds no occurrence. */
  lemma HeadFree<T>(s: seq<T>, sep: seq<T>)
    requires |sep| > 0 && IndexOf(s, sep) >= 0
    ensures !Contains(s[..IndexOf(s, sep)], sep)
  {
    var i := IndexOfFrom(s, sep, 0);
    var head := s[..i];
    forall j: nat | j + |sep| <= |head| ensures !OccursAt(head, sep, j) {
      assert j < i;
      assert !OccursAt(s, sep, j);
      forall k | j <= k < j + |sep| ensures head[k] == s[k] {
      }
      assert head[j..j + |sep|] == s[j..j + |sep|];
    }
  }


  /** For a one-element separator, splitting a join of separator-free parts
      gives back the parts. */
  lemma {:induction false} SplitJoin<T>(parts: seq<seq<T>>, c: T)
    requires |parts| >= 1
    requires forall k :: 0 <= k < |parts| ==> c !in parts[k]
    ensures Split(Join(parts, [c]), [c]) == parts
  {
    var s := Join(parts, [c]);
    if |parts| == 1 {
      NotInNoOccurrence(parts[0], c);
    } else {
      var rest := Join(parts[1..], [c]);
      assert s == parts[0] + [c] + rest;
      var n := |parts[0]|;
      assert OccursAt(s, [c], n) by { assert s[n..n + 1] == [c]; }
      forall i | 0 <= i < n ensures !OccursAt(s, [c], i) {
        assert s[i] == parts[0][i];
      }
      assert IndexOf(s, [c]) == n;
      assert s[n + 1..] == rest;
      assert s[..n] == parts[0];
      SplitJoin(parts[1..], c);
    }
  }

  lemma NotInNoOccurrence<T>(s: seq<T>, c: T)
    requires c !in s
    ensures IndexOf(s, [c]) == -1
  {
    forall i: nat | i < |s| ensures !OccursAt(s, [c], i) {
      assert s[i..i + 1] == [s[i]];
    }
  }

  /** `s.filter(p)`. */
  function Filter<T>(s: seq<T>, p: T -> bool): (r: seq<T>)
    ensures |r| <= |s|
    ensures forall i :: 0 <= i < |r| ==> p(r[i])
  {
    if s == [] then [] else (if p(s[0]) then [s[0]] else []) + Filter(s[1..], p)
  }

  /** Filtering works piece by piece, so it keeps the order of what it
      keeps. */
  lemma {:induction false} FilterAppend<T>(a: seq<T>, b: seq<T>, p: T -> bool)
    ensures Filter(a + b, p) == Filter(a, p) + Filter(b, p)
  {
    if a == [] {
      assert a + b == b;
    } else {
      assert (a + b)[0] == a[0] && (a + b)[1..] == a[1..] + b;
      FilterAppend(a[1..], b, p);
      var head := if p(a[0]) then [a[0]] else [];
      assert Filter(a + b, p) == head + (Filter(a[1..], p) + Filter(b, p));
    }
  }

  /** An element is kept exactly when it is in the input and passes. */
  lemma {:induction false} FilterMember<T>(s: seq<T>, p: T -> bool, x: T)
    ensures x in Filter(s, p) <==> x in s && p(x)
  {
    if s != [] {
      FilterMember(s[1..], p, x);
      assert s == [s[0]] + s[1..];
    }
  }

  /** When everything passes nothing is dropped, duplicates included. */
  lemma {:induction false} FilterAll<T>(s: seq<T>, p: T -> bool)
    requires forall i :: 0 <= i < |s| ==> p(s[i])
    ensures Filter(s, p) == s
  {
    if s != [] {
      FilterAll(s[1..], p);
    }
  }

  /** Filtering a sequence with a first element. */
  lemma FilterCons<T>(x: T, s: seq<T>, p: T -> bool)
    ensures Filter([x] + s, p) == (if p(x) then [x] else []) + Filter(s, p)
  {
    assert ([x] + s)[0] == x && ([x] + s)[1..] == s;
  }

  /** Filtering with a stricter test after a looser one is filtering with
      the stricter test alone. */
  lemma {:induction false} FilterFilter<T>(s: seq<T>, p: T -> bool, q: T -> bool)
    requires forall x :: q(x) ==> p(x)
    ensures Filter(Filter(s, p), q) == Filter(s, q)
  {
    if s != [] {
      FilterFilter(s[1..], p, q);
      var head := if p(s[0]) then [s[0]] else [];
      FilterAppend(head, Filter(s[1..], p), q);
      if p(s[0]) {
        FilterCons(s[0], [], q);
      }
    }
  }

  /** When nothing passes nothing is kept. */
  lemma {:induction false} FilterNone<T>(s: seq<T>, p: T -> bool)
    requires forall i :: 0 <= i < |s| ==> !p(s[i])
    ensures Filter(s, p) == []
  {
    if s != [] {
      FilterNone(s[1..], p);
    }
  }

  /** The characters `String.prototype.trim` removes: ECMAScript white space
      and line terminators. */
  predicate IsWhitespace(c: char) {
    c == ' ' || c == '\t' || c == '\n' || c == '\r' || c == '\U{000B}' || c == '\U{000C}'
    || c == '\U{00A0}' || c == '\U{1680}' || ('\U{2000}' <= c <= '\U{200A}')
    || c == '\U{2028}' || c == '\U{2029}' || c == '\U{202F}' || c == '\U{205F}'
    || c == '\U{3000}' || c == '\U{FEFF}'
  }

  function TrimStart(s: string): (r: string)
    ensures |r| <= |s| && EndsWith(s, r)
    ensures r == [] || !IsWhitespace(r[0])
  {
    if s != [] && IsWhitespace(s[0]) then TrimStart(s[1..]) else s
  }

  function TrimEnd(s: string): (r: string)
    ensures |r| <= |s| && StartsWith(s, r)
    ensures r == [] || !IsWhitespace(r[|r| - 1])
  {
    if s != [] && IsWhitespace(s[|s| - 1]) then TrimEnd(s[..|s| - 1]) else s
  }

  /** `s.trim()`. */
  function Trim(s: string): string {
    TrimEnd(TrimStart(s))
  }

  lemma TrimShape(s: string)
    ensures |Trim(s)| <= |s|
    ensures Trim(s) == [] || (!IsWhitespace(Trim(s)[0]) && !IsWhitespace(Trim(s)[|Trim(s)| - 1]))
  {
    var t := TrimStart(s);
    var r := TrimEnd(t);
    if r != [] {
      assert r[0] == t[0];
    }
  }

  lemma TrimStartEndsWithSpace(s: string)
    requires s != [] && s[|s| - 1] == ' '
    ensures TrimStart(s) == [] || TrimStart(s)[|TrimStart(s)| - 1] == ' '
  {
  }

  /** Trimming a string that ends in a space drops at least that space. */
  lemma TrimDropsTrailingSpace(s: string)
    requires s != [] && s[|s| - 1] == ' '
    ensures |Trim(s)| <= |s| - 1
  {
    var t := TrimStart(s);
    TrimStartEndsWithSpace(s);
    if t != [] {
      assert TrimEnd(t) == TrimEnd(t[..|t| - 1]);
    }
  }

  lemma TrimLeadingSpace(s: string)
    ensures Trim([' '] + s) == Trim(s)
  {
    assert ([' '] + s)[1..] == s;
  }

  function LowerChar(c: char): char {
    if 'A' <= c <= 'Z' then (c as int + 32) as char else c
  }

  function UpperChar(c: char): char {
    if 'a' <= c <= 'z' then (c as int - 32) as char else c
  }

  predicate IsLowerLetter(c: char) {
    'a' <= c <= 'z'
  }

  /** `s.toLowerCase()` restricted to ASCII letters. */
  function ToLower(s: string): (r: string)
    ensures |r| == |s|
    ensures forall i :: 0 <= i < |s| ==> r[i] == LowerChar(s[i])
  {
    if s == [] then [] else [LowerChar(s[0])] + ToLower(s[1..])
  }

  /** Lower-casing works character by character. */
  lemma ToLowerAppend(a: string, b: string)
    ensures ToLower(a + b) == ToLower(a) + ToLower(b)
  {
  }

  /** Lower-casing leaves alone the characters that are not upper-case
      letters and turns none into them, so it commutes with a filter that
      passes a character exactly when it passes the lower-cased one. */
  lemma {:induction false} ToLowerFilter(s: string, p: char -> bool)
    requires forall c :: p(LowerChar(c)) == p(c)
    ensures Filter(ToLower(s), p) == ToLower(Filter(s, p))
  {
    if s != [] {
      ToLowerFilter(s[1..], p);
      FilterCons(LowerChar(s[0]), ToLower(s[1..]), p);
      var head := if p(s[0]) then [s[0]] else [];
      ToLowerAppend(head, Filter(s[1..], p));
    }
  }

  /** Lower-casing twice is lower-casing once. */
  lemma ToLowerTwice(s: string)
    ensures ToLower(ToLower(s)) == ToLower(s)
  {
    var t := ToLower(s);
    forall i | 0 <= i < |s| ensures ToLower(t)[i] == t[i] {
      assert t[i] == LowerChar(s[i]);
    }
  }

  /** `s.toUpperCase()` restricted to ASCII letters. */
  function ToUpper(s: string): (r: string)
    ensures |r| == |s|
    ensures forall i :: 0 <= i < |s| ==> r[i] == UpperChar(s[i])
  {
    if s == [] then [] else [UpperChar(s[0])] + ToUpper(s[1..])
  }

  /** `" ".repeat(n)`. */
  function Spaces(n: nat): (r: string)
    ensures |r| == n && forall i :: 0 <= i < n ==> r[i] == ' '
  {
    if n == 0 then [] else Spaces(n - 1) + [' ']
  }

  /** Decimal rendering of a natural number, as `String(n)`. */
  function NatToString(n: nat): (r: string)
    ensures |r| >= 1
  {
    if n < 10 then [Digit(n)] else NatToString(n / 10) + [Digit(n % 10)]
  }

  function Digit(d: nat): char
    requires d < 10
  {
    ('0' as int + d) as char
  }
}
