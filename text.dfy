/**
 * Character classes and string operations with the semantics the browser's
 * JavaScript gives them: `\s` and `trim()`, `\d`, `[A-Za-z]`, `split` on a
 * character and on `/\s+/`, and `join`. Strings are sequences of code points.
 */
module Text {

  /** The code points JavaScript counts as WhiteSpace or LineTerminator:
      exactly what `\s` matches and what `String.prototype.trim` removes. */
  predicate IsWhitespace(c: char) {
    var n := c as int;
    (0x09 <= n <= 0x0D) || n == 0x20 || n == 0xA0 || n == 0x1680
    || (0x2000 <= n <= 0x200A) || n == 0x2028 || n == 0x2029
    || n == 0x202F || n == 0x205F || n == 0x3000 || n == 0xFEFF
  }

  /** `\d` without the `u` flag: ASCII digits only. */
  predicate IsDigit(c: char) { '0' <= c <= '9' }

  predicate IsUpper(c: char) { 'A' <= c <= 'Z' }

  predicate IsLower(c: char) { 'a' <= c <= 'z' }

  /** `[A-Za-z]`, which is also what `[A-Z]` matches under the `i` flag
      without the `u` flag. */
  predicate IsLetter(c: char) { IsUpper(c) || IsLower(c) }

  function ToUpper(c: char): (u: char)
    ensures IsLower(c) ==> IsUpper(u) && u as int == c as int - 32
    ensures !IsLower(c) ==> u == c
  {
    if IsLower(c) then (c as int - 32) as char else c
  }

  function ToLower(c: char): (l: char)
    ensures IsUpper(c) ==> IsLower(l) && l as int == c as int + 32
    ensures !IsUpper(c) ==> l == c
  {
    if IsUpper(c) then (c as int + 32) as char else c
  }

  /** Lower-cases the ASCII letters of `s` and keeps every other code point. */
  function LowerAscii(s: string): (r: string)
    ensures |r| == |s|
    ensures forall k :: 0 <= k < |s| ==> r[k] == ToLower(s[k])
  {
    seq(|s|, k requires 0 <= k < |s| => ToLower(s[k]))
  }

  predicate EndsWith(s: string, suffix: string) {
    |suffix| <= |s| && s[|s| - |suffix|..] == suffix
  }

  /** True when some character of `s` satisfies `p` (a regex `test` for a
      one-character class). */
  predicate Any(s: string, p: char -> bool) {
    exists k :: 0 <= k < |s| && p(s[k])
  }

  predicate All(s: string, p: char -> bool) {
    forall k :: 0 <= k < |s| ==> p(s[k])
  }

  // ---------------------------------------------------------------------
  // Runs and searches

  /** The end of the longest run of characters satisfying `p` that starts at
      `i`: what a greedy `[...]*` consumes from `i`. */
  function RunEnd(s: string, i: nat, p: char -> bool): (j: nat)
    requires i <= |s|
    ensures i <= j <= |s|
    ensures forall k :: i <= k < j ==> p(s[k])
    ensures j == |s| || !p(s[j])
    decreases |s| - i
  {
    if i < |s| && p(s[i]) then RunEnd(s, i + 1, p) else i
  }

  /** A run stops at the first character outside the class. */
  lemma {:induction false} RunEndIsFirstMiss(s: string, i: nat, p: char -> bool, j: nat)
    requires i <= j <= |s|
    requires forall k :: i <= k < j ==> p(s[k])
    requires j == |s| || !p(s[j])
    ensures RunEnd(s, i, p) == j
    decreases j - i
  {
    if i < j {
      RunEndIsFirstMiss(s, i + 1, p, j);
    }
  }

  /** A run from `i` reaches at least as far as any stretch of the class
      that starts at `i`. */
  lemma {:induction false} RunEndCovers(s: string, i: nat, p: char -> bool, j: nat)
    requires i <= j <= |s|
    requires forall k :: i <= k < j ==> p(s[k])
    ensures RunEnd(s, i, p) >= j
    decreases j - i
  {
    if i < j {
      RunEndCovers(s, i + 1, p, j);
    }
  }

  /** The first position at or after `i` whose character satisfies `p`, or
      `|s|` if there is none. */
  function FirstWhere(s: string, i: nat, p: char -> bool): (j: nat)
    requires i <= |s|
    ensures i <= j <= |s|
    ensures forall k :: i <= k < j ==> !p(s[k])
    ensures j < |s| ==> p(s[j])
    decreases |s| - i
  {
    if i == |s| || p(s[i]) then i else FirstWhere(s, i + 1, p)
  }

  /** The position of the first occurrence of `c` in `s`, or `|s|`. */
  function IndexOf(s: string, c: char): (k: nat)
    ensures k <= |s|
    ensures k < |s| ==> s[k] == c
    ensures forall j :: 0 <= j < k ==> s[j] != c
  {
    if s == [] || s[0] == c then 0 else 1 + IndexOf(s[1..], c)
  }

  // ---------------------------------------------------------------------
  // trim()

  /** `trimStart()`: the longest suffix of `s` that does not begin with
      whitespace. */
  function TrimStart(s: string): (r: string)
    ensures |r| <= |s| && r == s[|s| - |r|..]
    ensures r == [] || !IsWhitespace(r[0])
    ensures forall k :: 0 <= k < |s| - |r| ==> IsWhitespace(s[k])
  {
    if s != [] && IsWhitespace(s[0]) then
      var t := s[1..];
      var r := TrimStart(t);
      assert t[|t| - |r|..] == s[|s| - |r|..];
      assert forall k :: 1 <= k < |s| ==> s[k] == t[k - 1];
      r
    else s
  }

  /** `trimEnd()`: the longest prefix of `s` that does not end with
      whitespace. */
  function TrimEnd(s: string): (r: string)
    ensures |r| <= |s| && r == s[..|r|]
    ensures r == [] || !IsWhitespace(r[|r| - 1])
    ensures forall k :: |r| <= k < |s| ==> IsWhitespace(s[k])
  {
    if s != [] && IsWhitespace(s[|s| - 1]) then TrimEnd(s[..|s| - 1]) else s
  }

  predicate IsTrimmed(s: string) {
    s == [] || (!IsWhitespace(s[0]) && !IsWhitespace(s[|s| - 1]))
  }

  /** `r` sits in `s` at offset `a` with only whitespace on either side. */
  predicate PaddedAt(s: string, r: string, a: nat) {
    a + |r| <= |s| && r == s[a..a + |r|]
    && (forall k :: 0 <= k < a ==> IsWhitespace(s[k]))
    && (forall k :: a + |r| <= k < |s| ==> IsWhitespace(s[k]))
  }

  /** `trim()`: `s` without its leading and trailing whitespace. The result
      is a slice of `s`, everything cut off is whitespace, and a string that
      is already trimmed comes back unchanged. */
  function Trim(s: string): (r: string)
    ensures IsTrimmed(r)
    ensures exists a: nat :: PaddedAt(s, r, a)
    ensures IsTrimmed(s) ==> r == s
  {
    TrimPadded(s);
    TrimEnd(TrimStart(s))
  }

  lemma TrimPadded(s: string)
    ensures PaddedAt(s, TrimEnd(TrimStart(s)), |s| - |TrimStart(s)|)
  {
    PaddedWithin(s, TrimStart(s), TrimEnd(TrimStart(s)));
  }

  /** A prefix `r` of a suffix `t` of `s`, with whitespace cut off on both
      sides, sits padded in `s`. */
  lemma PaddedWithin(s: string, t: string, r: string)
    requires |t| <= |s| && t == s[|s| - |t|..]
    requires forall k :: 0 <= k < |s| - |t| ==> IsWhitespace(s[k])
    requires |r| <= |t| && r == t[..|r|]
    requires forall k :: |r| <= k < |t| ==> IsWhitespace(t[k])
    ensures PaddedAt(s, r, |s| - |t|)
  {
    var a := |s| - |t|;
    assert r == s[a..a + |r|];
    forall k | a + |r| <= k < |s| ensures IsWhitespace(s[k]) {
      assert s[k] == t[k - a];
    }
  }

  /** A string trims to nothing exactly when every character is whitespace:
      JavaScript's `s.trim() === ""` test for a blank answer. */
  lemma TrimEmptyIffBlank(s: string)
    ensures Trim(s) == [] <==> All(s, IsWhitespace)
  {
    var r := Trim(s);
    var a: nat :| PaddedAt(s, r, a);
    if r != [] {
      assert r[0] == s[a];
    }
  }

  /** Trimming is idempotent. */
  lemma TrimIdempotent(s: string)
    ensures Trim(Trim(s)) == Trim(s)
  {
  }

  // ---------------------------------------------------------------------
  // split / join on one character

  /** `s.split(sep)` for a one-character separator: the pieces between the
      occurrences of `sep`, empty pieces included. */
  function SplitOn(s: string, sep: char): (parts: seq<string>)
    ensures |parts| >= 1
    ensures forall k :: 0 <= k < |parts| ==> sep !in parts[k]
    decreases |s|
  {
    var k := IndexOf(s, sep);
    if k == |s| then [s]
    else [s[..k]] + SplitOn(s[k + 1..], sep)
  }

  /** Joining the pieces with the separator gives back the string. */
  lemma {:induction false} JoinSplit(s: string, sep: char)
    ensures JoinWith(SplitOn(s, sep), [sep]) == s
    decreases |s|
  {
    var k := IndexOf(s, sep);
    if k < |s| {
      var rest := SplitOn(s[k + 1..], sep);
      SplitOnStep(s, sep);
      JoinSplit(s[k + 1..], sep);
      JoinCons(s[..k], rest, [sep]);
      assert s == s[..k] + [sep] + s[k + 1..];
    }
  }

  /** One step of `SplitOn`: the piece before the first separator, then the
      pieces of the rest. */
  lemma SplitOnStep(s: string, sep: char)
    requires IndexOf(s, sep) < |s|
    ensures SplitOn(s, sep) == [s[..IndexOf(s, sep)]] + SplitOn(s[IndexOf(s, sep) + 1..], sep)
  {
  }

  /** Joining a piece in front of at least one more. */
  lemma JoinCons(p: string, rest: seq<string>, sep: string)
    requires |rest| >= 1
    ensures JoinWith([p] + rest, sep) == p + sep + JoinWith(rest, sep)
  {
    assert ([p] + rest)[1..] == rest;
  }

  /** Every character of a piece comes from the string that was split. */
  lemma {:induction false} SplitOnPieceChars(s: string, sep: char, i: nat)
    requires i < |SplitOn(s, sep)|
    ensures forall c :: c in SplitOn(s, sep)[i] ==> c in s
    decreases |s|
  {
    var k := IndexOf(s, sep);
    if k < |s| && i > 0 {
      SplitOnPieceChars(s[k + 1..], sep, i - 1);
      forall c | c in s[k + 1..] ensures c in s {
        var j :| 0 <= j < |s[k + 1..]| && s[k + 1..][j] == c;
        assert s[k + 1 + j] == c;
      }
    } else if k < |s| {
      forall c | c in s[..k] ensures c in s {
        var j :| 0 <= j < k && s[..k][j] == c;
        assert s[j] == c;
      }
    }
  }

  /** `parts.join(sep)`. */
  function JoinWith(parts: seq<string>, sep: string): string
  {
    if |parts| == 0 then ""
    else if |parts| == 1 then parts[0]
    else parts[0] + sep + JoinWith(parts[1..], sep)
  }

  /** Splitting undoes joining when no piece contains the separator. */
  lemma {:induction false} SplitJoin(parts: seq<string>, sep: char)
    requires |parts| >= 1
    requires forall k :: 0 <= k < |parts| ==> sep !in parts[k]
    ensures SplitOn(JoinWith(parts, [sep]), sep) == parts
  {
    if |parts| > 1 {
      var s := JoinWith(parts, [sep]);
      var tail := JoinWith(parts[1..], [sep]);
      assert s == parts[0] + [sep] + tail;
      IndexOfPrefix(parts[0], sep, tail);
      assert s[..|parts[0]|] == parts[0];
      assert s[|parts[0]| + 1..] == tail;
      SplitJoin(parts[1..], sep);
    } else {
      assert IndexOf(parts[0], sep) == |parts[0]|;
    }
  }

  lemma IndexOfPrefix(p: string, sep: char, tail: string)
    requires sep !in p
    ensures IndexOf(p + [sep] + tail, sep) == |p|
  {
    var s := p + [sep] + tail;
    forall j | 0 <= j < |p| ensures s[j] != sep {
      assert s[j] == p[j];
    }
    assert s[|p|] == sep;
  }

  /** `s.split(/[...]/)` for a one-character class: the pieces between the
      characters satisfying `isSep`, empty pieces included. */
  function SplitWhere(s: string, isSep: char -> bool): (parts: seq<string>)
    ensures |parts| >= 1
    ensures forall k :: 0 <= k < |parts| ==> !Any(parts[k], isSep)
    decreases |s|
  {
    var k := FirstWhere(s, 0, isSep);
    if k == |s| then [s]
    else [s[..k]] + SplitWhere(s[k + 1..], isSep)
  }

  /** Gluing the pieces back together gives the string with its separators
      removed: the split loses nothing but the separators. */
  lemma {:induction false} SplitWhereConcat(s: string, isSep: char -> bool)
    ensures Concat(SplitWhere(s, isSep)) == Without(s, isSep)
    decreases |s|
  {
    var k := FirstWhere(s, 0, isSep);
    if k == |s| {
      WithoutNone(s, isSep);
    } else {
      var rest := SplitWhere(s[k + 1..], isSep);
      SplitWhereStep(s, isSep, k);
      SplitWhereConcat(s[k + 1..], isSep);
      WithoutCut(s, k, isSep);
      assert ([s[..k]] + rest)[1..] == rest;
    }
  }

  /** One step of `SplitWhere`: the piece before the first separator, then
      the pieces of the rest. */
  lemma SplitWhereStep(s: string, isSep: char -> bool, k: nat)
    requires k < |s| && FirstWhere(s, 0, isSep) == k
    ensures SplitWhere(s, isSep) == [s[..k]] + SplitWhere(s[k + 1..], isSep)
  {
  }

  /** A piece free of separators, then a separator: the piece is the first
      part and the split goes on after the separator. */
  lemma SplitWhereAt(p: string, c: char, rest: string, isSep: char -> bool)
    requires !Any(p, isSep) && isSep(c)
    ensures SplitWhere(p + [c] + rest, isSep) == [p] + SplitWhere(rest, isSep)
  {
    var s := p + [c] + rest;
    assert s[|p|] == c;
    SplitWhereStep(s, isSep, |p|);
    assert s[..|p|] == p && s[|p| + 1..] == rest;
  }

  /** A string without separators is split into itself alone. */
  lemma SplitWhereNone(s: string, isSep: char -> bool)
    requires !Any(s, isSep)
    ensures SplitWhere(s, isSep) == [s]
  {
    assert FirstWhere(s, 0, isSep) == |s|;
  }

  /** Two separator-free pieces around one separator split back apart. */
  lemma SplitWhereTwo(p: string, c: char, q: string, isSep: char -> bool)
    requires !Any(p, isSep) && isSep(c) && !Any(q, isSep)
    ensures SplitWhere(p + [c] + q, isSep) == [p, q]
  {
    SplitWhereAt(p, c, q, isSep);
    SplitWhereNone(q, isSep);
  }

  /** Removing the separators from `s` around its first separator `s[k]`. */
  lemma WithoutCut(s: string, k: nat, isSep: char -> bool)
    requires k < |s| && FirstWhere(s, 0, isSep) == k
    ensures Without(s, isSep) == s[..k] + Without(s[k + 1..], isSep)
  {
    var head, tail := s[..k], s[k..];
    assert s == head + tail;
    assert !Any(head, isSep) by {
      forall i | 0 <= i < k ensures !isSep(head[i]) {
        assert head[i] == s[i];
      }
    }
    WithoutNone(head, isSep);
    WithoutAppend(head, tail, isSep);
    assert tail == [s[k]] + s[k + 1..];
    WithoutSkip(s[k], s[k + 1..], isSep);
  }

  lemma WithoutSkip(c: char, rest: string, p: char -> bool)
    requires p(c)
    ensures Without([c] + rest, p) == Without(rest, p)
  {
    assert ([c] + rest)[1..] == rest;
  }

  function Concat(parts: seq<string>): string {
    if parts == [] then "" else parts[0] + Concat(parts[1..])
  }

  /** `s` with the characters satisfying `p` removed. */
  function Without(s: string, p: char -> bool): (r: string)
    ensures |r| <= |s|
    ensures forall k :: 0 <= k < |r| ==> !p(r[k])
  {
    if s == [] then ""
    else (if p(s[0]) then "" else [s[0]]) + Without(s[1..], p)
  }

  lemma {:induction false} WithoutAppend(x: string, y: string, p: char -> bool)
    ensures Without(x + y, p) == Without(x, p) + Without(y, p)
    decreases |x|
  {
    if x == [] {
      assert x + y == y;
    } else {
      assert (x + y)[1..] == x[1..] + y;
      WithoutAppend(x[1..], y, p);
    }
  }

  lemma {:induction false} WithoutNone(s: string, p: char -> bool)
    requires !Any(s, p)
    ensures Without(s, p) == s
    decreases |s|
  {
    if s != [] {
      assert !p(s[0]);
      WithoutNone(s[1..], p);
    }
  }

  /** `xs.filter(Boolean)` on strings: the non-empty ones, in order. */
  function NonEmpty(xs: seq<string>): (r: seq<string>)
    ensures |r| <= |xs|
    ensures forall k :: 0 <= k < |r| ==> r[k] != ""
  {
    if xs == [] then []
    else (if xs[0] == "" then [] else [xs[0]]) + NonEmpty(xs[1..])
  }

  /** `filter(Boolean)` keeps exactly the non-empty strings. */
  lemma {:induction false} NonEmptyMembers(xs: seq<string>)
    ensures forall x :: x in NonEmpty(xs) <==> x in xs && x != ""
  {
    if xs != [] {
      NonEmptyMembers(xs[1..]);
      assert xs == [xs[0]] + xs[1..];
    }
  }

  /** `filter(Boolean)` keeps the order: filtering a concatenation filters
      each part and concatenates the results, so whatever survives from an
      earlier stretch of the input comes before whatever survives from a
      later one. */
  lemma {:induction false} NonEmptyAppend(a: seq<string>, b: seq<string>)
    ensures NonEmpty(a + b) == NonEmpty(a) + NonEmpty(b)
  {
    if a == [] {
      assert a + b == b;
    } else {
      assert (a + b)[0] == a[0];
      assert (a + b)[1..] == a[1..] + b;
      NonEmptyAppend(a[1..], b);
    }
  }

  // ---------------------------------------------------------------------
  // split(/\s+/)

  /** `s.split(/\s+/)`: the pieces between maximal runs of whitespace. A run
      at the start or the end of `s` yields an empty first or last piece,
      and the empty string yields one empty piece. */
  function Words(s: string): (ws: seq<string>)
    ensures |ws| >= 1
    ensures forall k :: 0 <= k < |ws| ==> !Any(ws[k], IsWhitespace)
    decreases |s|
  {
    var k := FirstWhere(s, 0, IsWhitespace);
    if k == |s| then [s]
    else [s[..k]] + Words(s[RunEnd(s, k, IsWhitespace)..])
  }

  /** A non-empty trimmed line splits into non-empty words. */
  lemma {:induction false} WordsOfTrimmed(s: string)
    requires s != [] && IsTrimmed(s)
    ensures forall k :: 0 <= k < |Words(s)| ==> Words(s)[k] != []
    decreases |s|
  {
    var k := FirstWhere(s, 0, IsWhitespace);
    if k < |s| {
      var e := RunEnd(s, k, IsWhitespace);
      assert e < |s|;
      var rest := s[e..];
      assert rest[|rest| - 1] == s[|s| - 1];
      WordsOfTrimmed(rest);
      assert Words(s) == [s[..k]] + Words(rest);
    }
  }

  /** Removing a class from a string made only of that class leaves
      nothing. */
  lemma {:induction false} WithoutAll(s: string, p: char -> bool)
    requires All(s, p)
    ensures Without(s, p) == ""
    decreases |s|
  {
    if s != [] {
      assert p(s[0]);
      assert All(s[1..], p) by {
        forall k | 0 <= k < |s| - 1 ensures p(s[1..][k]) {
          assert s[1..][k] == s[k + 1];
        }
      }
      WithoutAll(s[1..], p);
    }
  }

  lemma ConcatCons(x: string, xs: seq<string>)
    ensures Concat([x] + xs) == x + Concat(xs)
  {
    assert ([x] + xs)[1..] == xs;
  }

  /** Removing a class from a word with none of it, a gap made only of it,
      and a rest keeps the word and the rest's survivors. */
  lemma WithoutPieces(head: string, gap: string, rest: string, p: char -> bool)
    requires !Any(head, p) && All(gap, p)
    ensures Without(head + gap + rest, p) == head + Without(rest, p)
  {
    calc {
      Without(head + gap + rest, p);
    == { WithoutAppend(head + gap, rest, p); }
      Without(head + gap, p) + Without(rest, p);
    == { WithoutAppend(head, gap, p); WithoutNone(head, p); WithoutAll(gap, p); }
      head + "" + Without(rest, p);
    }
    assert head + "" == head;
  }

  /** `split(/\s+/)` drops only whitespace: the words, run together, are the
      line with its whitespace removed. */
  lemma {:induction false} WordsConcat(s: string)
    ensures Concat(Words(s)) == Without(s, IsWhitespace)
    decreases |s|
  {
    var k := FirstWhere(s, 0, IsWhitespace);
    var head := s[..k];
    assert !Any(head, IsWhitespace) by {
      forall i | 0 <= i < k ensures !IsWhitespace(head[i]) {
        assert head[i] == s[i];
      }
    }
    if k == |s| {
      assert head == s;
      WithoutNone(s, IsWhitespace);
      ConcatCons(s, []);
    } else {
      var e := RunEnd(s, k, IsWhitespace);
      var gap, rest := s[k..e], s[e..];
      assert Words(s) == [head] + Words(rest);
      assert All(gap, IsWhitespace) by {
        forall i | 0 <= i < |gap| ensures IsWhitespace(gap[i]) {
          assert gap[i] == s[k + i];
        }
      }
      assert s == head + gap + rest;
      WithoutPieces(head, gap, rest, IsWhitespace);
      WordsConcat(rest);
      ConcatCons(head, Words(rest));
    }
  }

  /** A word, one whitespace character, and a rest that does not start with
      whitespace split into the word followed by the rest's words. */
  lemma WordsCons(w: string, c: char, tail: string)
    requires !Any(w, IsWhitespace) && IsWhitespace(c)
    requires tail != "" && !IsWhitespace(tail[0])
    ensures Words(w + [c] + tail) == [w] + Words(tail)
  {
    var s := w + [c] + tail;
    var k := FirstWhere(s, 0, IsWhitespace);
    assert s[|w|] == c;
    assert k == |w|;
    assert s[k + 1] == tail[0];
    RunEndIsFirstMiss(s, k, IsWhitespace, k + 1);
    assert s[..k] == w;
    assert s[k + 1..] == tail;
  }

  /** Words joined by single whitespace characters split back into the same
      words. */
  lemma {:induction false} WordsJoin(ws: seq<string>, c: char)
    requires |ws| >= 1 && IsWhitespace(c)
    requires forall k :: 0 <= k < |ws| ==> ws[k] != "" && !Any(ws[k], IsWhitespace)
    ensures Words(JoinWith(ws, [c])) == ws
  {
    if |ws| == 1 {
      assert FirstWhere(ws[0], 0, IsWhitespace) == |ws[0]|;
    } else {
      var tail := JoinWith(ws[1..], [c]);
      assert JoinWith(ws, [c]) == ws[0] + [c] + tail;
      assert tail[0] == ws[1][0];
      assert !IsWhitespace(ws[1][0]);
      WordsCons(ws[0], c, tail);
      WordsJoin(ws[1..], c);
    }
  }
}
