/**
 * The Python `str` operations the audit's parsers call, with Python's
 * semantics: `split()` (runs of whitespace), `split(sep)`, `sub in s` and
 * `startswith`. `Find` (Python's `find`) is the search that `in` and
 * `split(sep)` are defined through; `Join` (`sep.join(parts)`) serves only
 * to state round trips; `Upper` is `upper()` on ASCII letters, used by the
 * corrected capability parse.
 *
 * An `IndexError` the audit provokes by indexing past the end of a `split`
 * result is not modelled here; callers check the length of the list first.
 */
module PyStr {

  datatype Option<+T> = None | Some(value: T)

  /** Python's `str.isspace()` on one character: the separators of `str.split()`. */
  predicate IsSpace(c: char)
  {
    var n := c as int;
    (0x09 <= n <= 0x0D) || (0x1C <= n <= 0x20) || n == 0x85 || n == 0xA0 || n == 0x1680
    || (0x2000 <= n <= 0x200A) || n == 0x2028 || n == 0x2029 || n == 0x202F
    || n == 0x205F || n == 0x3000
  }

  /** A token that `str.split()` can return: non-empty, without whitespace. */
  predicate IsToken(w: string)
  {
    |w| > 0 && forall i :: 0 <= i < |w| ==> !IsSpace(w[i])
  }

  /** Length of the whitespace run at the start of `s`. */
  function SpaceRun(s: string): (n: nat)
    ensures n <= |s|
    ensures forall i :: 0 <= i < n ==> IsSpace(s[i])
    ensures n < |s| ==> !IsSpace(s[n])
  {
    if s == [] || !IsSpace(s[0]) then 0 else 1 + SpaceRun(s[1..])
  }

  /** Length of the non-whitespace run at the start of `s`. */
  function WordRun(s: string): (n: nat)
    ensures n <= |s|
    ensures forall i :: 0 <= i < n ==> !IsSpace(s[i])
    ensures n < |s| ==> IsSpace(s[n])
  {
    if s == [] || IsSpace(s[0]) then 0 else 1 + WordRun(s[1..])
  }

  /** Python's `s.split()`: the maximal runs of non-whitespace characters, in order. */
  function SplitWs(s: string): (tokens: seq<string>)
    ensures forall k :: 0 <= k < |tokens| ==> IsToken(tokens[k])
    decreases |s|
  {
    var i := SpaceRun(s);
    if i == |s| then []
    else
      var rest := s[i..];
      var n := WordRun(rest);
      [rest[..n]] + SplitWs(rest[n..])
  }

  /** Python's `" ".join(tokens)`. */
  function JoinSpace(tokens: seq<string>): string
  {
    if |tokens| == 0 then ""
    else if |tokens| == 1 then tokens[0]
    else tokens[0] + " " + JoinSpace(tokens[1..])
  }

  /** Whitespace in front of a string does not change what `split()` returns. */
  lemma SplitWsLeadingSpace(c: char, s: string)
    requires IsSpace(c)
    ensures SplitWs([c] + s) == SplitWs(s)
  {
    var t := [c] + s;
    assert t[1..] == s;
    assert SpaceRun(t) == 1 + SpaceRun(s);
    assert t[SpaceRun(t)..] == s[SpaceRun(s)..];
  }

  /** `" ".join(ts).split() == ts` for a list of tokens: split() recovers the words it joins. */
  lemma {:induction false} SplitWsJoinSpace(tokens: seq<string>)
    requires forall k :: 0 <= k < |tokens| ==> IsToken(tokens[k])
    ensures SplitWs(JoinSpace(tokens)) == tokens
  {
    if |tokens| == 1 {
      assert tokens[0] == [] + tokens[0] + [];
      SplitWsCons([], tokens[0], []);
      SplitWsAllSpace([]);
    } else if |tokens| > 1 {
      var rest := JoinSpace(tokens[1..]);
      assert JoinSpace(tokens) == [] + tokens[0] + ([' '] + rest);
      SplitWsCons([], tokens[0], [' '] + rest);
      SplitWsLeadingSpace(' ', rest);
      SplitWsJoinSpace(tokens[1..]);
      assert tokens == [tokens[0]] + tokens[1..];
    }
  }

  /** `split()` of a string made only of whitespace, the empty string included, is empty. */
  lemma SplitWsAllSpace(w: string)
    requires forall i :: 0 <= i < |w| ==> IsSpace(w[i])
    ensures SplitWs(w) == []
  {
    assert SpaceRun(w) == |w|;
  }

  /**
   * `(w + t + rest).split() == [t] + rest.split()` for a whitespace run `w`
   * (possibly empty), a token `t`, and a `rest` that is empty or starts with
   * whitespace: a run of several separators counts as one, and whitespace at
   * either end yields no empty token. With SplitWsAllSpace this fixes
   * `split()` on every input.
   */
  lemma SplitWsCons(w: string, t: string, rest: string)
    requires forall i :: 0 <= i < |w| ==> IsSpace(w[i])
    requires IsToken(t)
    requires rest == [] || IsSpace(rest[0])
    ensures SplitWs(w + t + rest) == [t] + SplitWs(rest)
  {
    var s := w + t + rest;
    assert forall i :: 0 <= i < |w| ==> s[i] == w[i];
    assert s[|w|] == t[0];
    assert SpaceRun(s) == |w|;
    var r := s[|w|..];
    assert r == t + rest;
    assert forall i :: 0 <= i < |t| ==> r[i] == t[i];
    assert rest != [] ==> r[|t|] == rest[0];
    assert WordRun(r) == |t|;
    assert r[..|t|] == t;
    assert r[|t|..] == rest;
  }

  /** Python's `s.upper()` on one ASCII character: `a`..`z` become `A`..`Z`, anything else is kept. */
  function UpperChar(c: char): char
  {
    if 'a' <= c <= 'z' then (c as int - 32) as char else c
  }

  /** Python's `s.upper()` for text whose letters are ASCII. */
  function Upper(s: string): (u: string)
    ensures |u| == |s|
    ensures forall i :: 0 <= i < |s| ==> u[i] == UpperChar(s[i])
  {
    if s == [] then [] else [UpperChar(s[0])] + Upper(s[1..])
  }

  /** Python's `s.startswith(prefix)`. */
  predicate StartsWith(s: string, prefix: string)
  {
    |prefix| <= |s| && s[..|prefix|] == prefix
  }

  /** `sub` occurs in `s` starting at index `i`. */
  predicate OccursAt(s: string, sub: string, i: int)
  {
    0 <= i && i + |sub| <= |s| && s[i..i + |sub|] == sub
  }

  lemma OccursShift(s: string, sub: string)
    requires |s| > 0
    ensures forall j :: 1 <= j ==> (OccursAt(s, sub, j) <==> OccursAt(s[1..], sub, j - 1))
  {
    forall j | 1 <= j
      ensures OccursAt(s, sub, j) <==> OccursAt(s[1..], sub, j - 1)
    {
      if j + |sub| <= |s| {
        assert s[1..][j - 1..j - 1 + |sub|] == s[j..j + |sub|];
      }
    }
  }

  /** Python's `s.find(sub)`, with `None` for -1: the first index at which `sub` occurs. */
  function Find(s: string, sub: string): (r: Option<nat>)
    ensures r.Some? ==> OccursAt(s, sub, r.value)
    ensures r.Some? ==> forall j :: 0 <= j < r.value ==> !OccursAt(s, sub, j)
    ensures r.None? ==> forall j :: !OccursAt(s, sub, j)
    decreases |s|
  {
    if |s| < |sub| then None
    else if s[..|sub|] == sub then Some(0)
    else
      OccursShift(s, sub);
      match Find(s[1..], sub)
      case None => None
      case Some(j) => Some(j + 1)
  }

  /** Python's `sub in s`. */
  function Contains(s: string, sub: string): (b: bool)
    ensures b <==> exists i :: OccursAt(s, sub, i)
  {
    Find(s, sub).Some?
  }

  lemma OccursInPrefix(s: string, sub: string, i: nat)
    requires i <= |s|
    ensures forall j :: OccursAt(s[..i], sub, j) ==> OccursAt(s, sub, j) && j + |sub| <= i
  {
    forall j | OccursAt(s[..i], sub, j)
      ensures OccursAt(s, sub, j) && j + |sub| <= i
    {
      assert s[..i][j..j + |sub|] == s[j..j + |sub|];
    }
  }

  /**
   * Python's `s.split(sep)` for a non-empty separator: the pieces between
   * the non-overlapping occurrences of `sep`, found left to right.
   */
  function Split(s: string, sep: string): (parts: seq<string>)
    requires |sep| > 0
    ensures |parts| >= 1
    ensures forall k :: 0 <= k < |parts| ==> !Contains(parts[k], sep)
    decreases |s|
  {
    match Find(s, sep)
    case None => [s]
    case Some(i) =>
      OccursInPrefix(s, sep, i);
      [s[..i]] + Split(s[i + |sep|..], sep)
  }

  /** Python's `sep.join(parts)`. */
  function Join(parts: seq<string>, sep: string): string
    requires |parts| >= 1
  {
    if |parts| == 1 then parts[0] else parts[0] + sep + Join(parts[1..], sep)
  }

  /** `sep.join(s.split(sep)) == s`: splitting loses nothing but the separators. */
  lemma {:induction false} JoinSplit(s: string, sep: string)
    requires |sep| > 0
    ensures Join(Split(s, sep), sep) == s
    decreases |s|
  {
    match Find(s, sep)
    case None =>
    case Some(i) =>
      var tail := s[i + |sep|..];
      var parts := Split(s, sep);
      assert parts == [s[..i]] + Split(tail, sep);
      assert parts[1..] == Split(tail, sep);
      assert Join(parts, sep) == s[..i] + sep + Join(Split(tail, sep), sep);
      JoinSplit(tail, sep);
      assert s[i..i + |sep|] == sep;
      assert s == s[..i] + sep + tail;
  }

  /** `sep.join(parts)` has no `c` when neither `sep` nor any part has one. */
  lemma {:induction false} JoinAvoids(parts: seq<string>, sep: string, c: char)
    requires |parts| >= 1
    requires c !in sep
    requires forall k :: 0 <= k < |parts| ==> c !in parts[k]
    ensures c !in Join(parts, sep)
  {
    if |parts| > 1 {
      JoinAvoids(parts[1..], sep, c);
    }
  }

  /** `sep.join(parts)` is a whitespace token when the parts are tokens and `sep` is free of whitespace. */
  lemma {:induction false} JoinToken(parts: seq<string>, sep: string)
    requires |parts| >= 1
    requires forall i :: 0 <= i < |sep| ==> !IsSpace(sep[i])
    requires forall k :: 0 <= k < |parts| ==> IsToken(parts[k])
    ensures IsToken(Join(parts, sep))
  {
    if |parts| > 1 {
      JoinToken(parts[1..], sep);
      var j := parts[0] + sep + Join(parts[1..], sep);
      assert forall i :: 0 <= i < |parts[0]| ==> j[i] == parts[0][i];
      assert forall i :: 0 <= i < |sep| ==> j[|parts[0]| + i] == sep[i];
      assert forall i :: |parts[0]| + |sep| <= i < |j| ==> j[i] == Join(parts[1..], sep)[i - |parts[0]| - |sep|];
    }
  }

  /** `c.join(parts).split(c) == parts` for a one-character separator `c` that no part holds. */
  lemma {:induction false} SplitCharJoin(parts: seq<string>, c: char)
    requires |parts| >= 1
    requires forall k :: 0 <= k < |parts| ==> c !in parts[k]
    ensures Split(Join(parts, [c]), [c]) == parts
  {
    if |parts| == 1 {
      SplitCharAbsent(parts[0], c);
    } else {
      SplitCharJoin(parts[1..], c);
      SplitCharCons(parts[0], c, Join(parts[1..], [c]));
      assert parts == [parts[0]] + parts[1..];
    }
  }

  /** `s.split(sep)` has a second element exactly when `sep in s`. */
  lemma SplitHasSecond(s: string, sep: string)
    requires |sep| > 0
    ensures |Split(s, sep)| >= 2 <==> Contains(s, sep)
  {
  }

  /**
   * The first piece of `s.split(sep)` is the prefix of `s` that ends where
   * `sep` first occurs, or all of `s`; the second, when there is one, is the
   * first piece of what follows that occurrence.
   */
  lemma {:induction false} SplitHead(s: string, sep: string)
    requires |sep| > 0
    ensures var h := Split(s, sep)[0];
      && h <= s
      && (forall j :: 0 <= j < |h| ==> !OccursAt(s, sep, j))
      && (|h| == |s| || OccursAt(s, sep, |h|))
    ensures Find(s, sep).Some? ==>
      Split(s, sep)[1] == Split(s[Find(s, sep).value + |sep|..], sep)[0]
  {
    match Find(s, sep)
    case None =>
    case Some(i) =>
      assert Split(s, sep)[0] == s[..i];
  }

  /** One-character separators: `sep` occurs at `j` exactly when `s[j]` is that character. */
  lemma OccursChar(s: string, c: char)
    ensures forall j :: OccursAt(s, [c], j) <==> 0 <= j < |s| && s[j] == c
  {
    forall j | 0 <= j < |s|
      ensures OccursAt(s, [c], j) <==> s[j] == c
    {
      assert s[j..j + 1] == [s[j]];
    }
  }

  /** Splitting on a character absent from `a` leaves `a` whole. */
  lemma SplitCharAbsent(a: string, c: char)
    requires c !in a
    ensures Split(a, [c]) == [a]
  {
    OccursChar(a, c);
  }

  /** `(a + c + b).split(c) == [a] + b.split(c)` when `c` does not occur in `a`. */
  lemma SplitCharCons(a: string, c: char, b: string)
    requires c !in a
    ensures Split(a + [c] + b, [c]) == [a] + Split(b, [c])
  {
    var s := a + [c] + b;
    OccursChar(s, c);
    assert s[|a|] == c;
    assert forall j :: 0 <= j < |a| ==> s[j] == a[j];
    assert Find(s, [c]) == Some(|a|);
    assert s[..|a|] == a;
    assert s[|a| + 1..] == b;
  }

  /** The first piece of `(a + b).split(c)` is `a` when `a` has no `c` and `b` is empty or starts with `c`. */
  lemma SplitCharFirst(a: string, c: char, b: string)
    requires c !in a
    requires b == [] || b[0] == c
    ensures Split(a + b, [c])[0] == a
  {
    if b == [] {
      assert a + b == a;
      SplitCharAbsent(a, c);
    } else {
      assert a + b == a + [c] + b[1..];
      SplitCharCons(a, c, b[1..]);
    }
  }

  /** Piece 1 of `(a + c + b + rest).split(c)` is `b` when neither `a` nor `b` holds `c` and `rest` is empty or starts with `c`. */
  lemma SplitCharSecond(a: string, c: char, b: string, rest: string)
    requires c !in a && c !in b
    requires rest == [] || rest[0] == c
    ensures |Split(a + [c] + b + rest, [c])| >= 2
    ensures Split(a + [c] + b + rest, [c])[1] == b
  {
    assert a + [c] + b + rest == a + [c] + (b + rest);
    SplitCharCons(a, c, b + rest);
    SplitCharFirst(b, c, rest);
  }

  /** Every character of an occurrence of `sub` is a character of `s`, at the matching index. */
  lemma OccurrenceChars(s: string, sub: string, i: int)
    requires OccursAt(s, sub, i)
    ensures forall k :: 0 <= k < |sub| ==> s[i + k] == sub[k] && sub[k] in s
  {
    forall k | 0 <= k < |sub|
      ensures s[i + k] == sub[k] && sub[k] in s
    {
      assert s[i..i + |sub|][k] == s[i + k];
    }
  }
}
