/**
 String operations with the semantics of the Rust `str` methods the console
 renderer uses: `split`, `splitn(2, _)`, `join`, `trim`, `to_lowercase` (ASCII
 part) and character replacement. Strings are sequences of Unicode scalar values.
 */
module Text {

  /** Number of occurrences of `c` in `s`. */
  function Count(s: string, c: char): nat
  {
    if |s| == 0 then 0 else (if s[0] == c then 1 else 0) + Count(s[1..], c)
  }

  /** Position of the first `c` in `s`, or `|s|` when `s` has none. */
  function IndexOf(s: string, c: char): (i: nat)
    ensures i <= |s|
    ensures i < |s| ==> s[i] == c
    ensures c !in s[..i]
    ensures i == |s| <==> c !in s
  {
    if |s| == 0 then 0
    else if s[0] == c then 0
    else
      var j := IndexOf(s[1..], c);
      assert s[..1 + j] == [s[0]] + s[1..][..j];
      1 + j
  }

  /** The first-occurrence position is the only one with no `c` before it. */
  lemma {:induction false} IndexOfUnique(s: string, c: char, j: nat)
    requires j <= |s|
    requires c !in s[..j]
    requires j < |s| ==> s[j] == c
    ensures IndexOf(s, c) == j
  {
  }

  /** `pieces` with `sep` between neighbours, as Rust's `join(sep)`. */
  function Join(pieces: seq<string>, sep: string): string
  {
    if |pieces| == 0 then ""
    else if |pieces| == 1 then pieces[0]
    else pieces[0] + sep + Join(pieces[1..], sep)
  }

  /** Concatenation of all `pieces`, as Rust's `concat()`. */
  function Concat(pieces: seq<string>): string
  {
    if |pieces| == 0 then "" else pieces[0] + Concat(pieces[1..])
  }

  /**
   Rust's `s.split(c)`: the maximal runs of `s` between occurrences of `c`.
   The empty string yields one empty piece, and each separator adds a piece.
   */
  function Split(s: string, c: char): (pieces: seq<string>)
    ensures |pieces| > 0
    ensures forall i :: 0 <= i < |pieces| ==> c !in pieces[i]
  {
    if |s| == 0 then [""]
    else
      var rest := Split(s[1..], c);
      if s[0] == c then [""] + rest
      else [[s[0]] + rest[0]] + rest[1..]
  }

  /** Each separator adds one piece to the single piece of the empty string. */
  lemma {:induction false} SplitCount(s: string, c: char)
    ensures |Split(s, c)| == Count(s, c) + 1
  {
    if |s| > 0 {
      SplitCount(s[1..], c);
    }
  }

  /** The first piece is the text before the first separator. */
  lemma {:induction false} SplitFirst(s: string, c: char)
    ensures Split(s, c)[0] == s[..IndexOf(s, c)]
  {
    if |s| > 0 && s[0] != c {
      SplitFirst(s[1..], c);
      assert s[..IndexOf(s, c)] == [s[0]] + s[1..][..IndexOf(s[1..], c)];
    }
  }

  /** A string without the separator is one piece. */
  lemma {:induction false} SplitNoSeparator(s: string, c: char)
    requires c !in s
    ensures Split(s, c) == [s]
  {
    if |s| > 0 {
      assert s[0] != c && c !in s[1..];
      SplitNoSeparator(s[1..], c);
      assert [s[0]] + s[1..] == s;
    }
  }

  /** Splitting distributes over a separator: the pieces of `a`, then those of `b`. */
  lemma {:induction false} SplitAround(a: string, b: string, c: char)
    ensures Split(a + [c] + b, c) == Split(a, c) + Split(b, c)
  {
    var s := a + [c] + b;
    if |a| == 0 {
      assert s[1..] == b;
    } else {
      assert s[1..] == a[1..] + [c] + b;
      SplitAround(a[1..], b, c);
    }
  }

  /** Joining the pieces of a split with the separator gives the string back. */
  lemma {:induction false} JoinSplit(s: string, c: char)
    ensures Join(Split(s, c), [c]) == s
  {
    if |s| > 0 {
      var rest := Split(s[1..], c);
      JoinSplit(s[1..], c);
      if s[0] == c {
        assert ([""] + rest)[1..] == rest;
      } else {
        var pieces := [[s[0]] + rest[0]] + rest[1..];
        if |rest| > 1 {
          assert pieces[1..] == rest[1..];
        }
      }
    }
  }

  /** Splitting a join of separator-free pieces gives the pieces back. */
  lemma {:induction false} SplitJoin(pieces: seq<string>, c: char)
    requires |pieces| > 0
    requires forall i :: 0 <= i < |pieces| ==> c !in pieces[i]
    ensures Split(Join(pieces, [c]), c) == pieces
  {
    if |pieces| == 1 {
      SplitNoSeparator(pieces[0], c);
    } else {
      SplitNoSeparator(pieces[0], c);
      SplitJoin(pieces[1..], c);
      SplitAround(pieces[0], Join(pieces[1..], [c]), c);
    }
  }

  /** A character absent from `s` is absent from every piece of its split. */
  lemma {:induction false} SplitKeepsAbsent(s: string, c: char, d: char)
    requires d !in s
    ensures forall i :: 0 <= i < |Split(s, c)| ==> d !in Split(s, c)[i]
  {
    if |s| > 0 {
      SplitKeepsAbsent(s[1..], c, d);
    }
  }

  /**
   Rust's `s.splitn(2, c)`: the text before the first `c` and, when there is
   one, everything after it (which may itself contain `c`).
   */
  function SplitOnce(s: string, c: char): (parts: seq<string>)
    ensures 1 <= |parts| <= 2
    ensures |parts| == 2 <==> c in s
    ensures c !in parts[0]
    ensures |parts| == 1 ==> parts[0] == s
    ensures |parts| == 2 ==> s == parts[0] + [c] + parts[1]
  {
    var i := IndexOf(s, c);
    if i == |s| then [s] else [s[..i], s[i + 1..]]
  }

  /** `s` with every `a` replaced by `b`. */
  function Replace(s: string, a: char, b: char): (r: string)
    ensures |r| == |s|
  {
    seq(|s|, i requires 0 <= i < |s| => if s[i] == a then b else s[i])
  }

  lemma ReplaceAppend(x: string, y: string, a: char, b: char)
    ensures Replace(x + y, a, b) == Replace(x, a, b) + Replace(y, a, b)
  {
    assert forall i :: 0 <= i < |x + y| ==> Replace(x + y, a, b)[i] == (Replace(x, a, b) + Replace(y, a, b))[i];
  }

  /** Replacing the separator of a join of separator-free pieces re-joins them. */
  lemma {:induction false} ReplaceJoin(pieces: seq<string>, a: char, b: char)
    requires forall i :: 0 <= i < |pieces| ==> a !in pieces[i]
    ensures Replace(Join(pieces, [a]), a, b) == Join(pieces, [b])
  {
    if |pieces| == 1 {
      assert Replace(pieces[0], a, b) == pieces[0];
    } else if |pieces| > 1 {
      ReplaceJoin(pieces[1..], a, b);
      ReplaceAppend(pieces[0] + [a], Join(pieces[1..], [a]), a, b);
      ReplaceAppend(pieces[0], [a], a, b);
      assert Replace(pieces[0], a, b) == pieces[0];
    }
  }

  /** Joining pointwise longer pieces gives a longer string, strictly if one piece is. */
  lemma {:induction false} JoinLengthMonotone(longer: seq<string>, shorter: seq<string>, sep: string)
    requires |longer| == |shorter|
    requires forall i :: 0 <= i < |longer| ==> |longer[i]| >= |shorter[i]|
    ensures |Join(longer, sep)| >= |Join(shorter, sep)|
    ensures (exists i :: 0 <= i < |longer| && |longer[i]| > |shorter[i]|) ==> |Join(longer, sep)| > |Join(shorter, sep)|
  {
    if |longer| > 1 {
      JoinLengthMonotone(longer[1..], shorter[1..], sep);
      if exists i :: 0 <= i < |longer| && |longer[i]| > |shorter[i]| {
        var i :| 0 <= i < |longer| && |longer[i]| > |shorter[i]|;
        if i > 0 {
          assert |longer[1..][i - 1]| > |shorter[1..][i - 1]|;
        }
      }
    }
  }

  /** With a one-character separator, joining adds one character per gap. */
  lemma {:induction false} JoinLength(pieces: seq<string>, sep: string)
    requires |pieces| > 0 && |sep| == 1
    ensures |Join(pieces, sep)| == |Concat(pieces)| + |pieces| - 1
  {
    if |pieces| > 1 {
      JoinLength(pieces[1..], sep);
    }
  }

  /** Rust's `char::is_whitespace`: the characters with the Unicode White_Space property. */
  predicate IsWhitespace(ch: char)
  {
    || ('\t' <= ch <= '\r')
    || ch == ' '
    || ch == '\U{85}'
    || ch == '\U{A0}'
    || ch == '\U{1680}'
    || ('\U{2000}' <= ch <= '\U{200A}')
    || ch == '\U{2028}'
    || ch == '\U{2029}'
    || ch == '\U{202F}'
    || ch == '\U{205F}'
    || ch == '\U{3000}'
  }

  predicate AllWhitespace(s: string)
  {
    forall i :: 0 <= i < |s| ==> IsWhitespace(s[i])
  }

  /** Neither the first nor the last character is whitespace. */
  predicate Trimmed(s: string)
  {
    |s| == 0 || (!IsWhitespace(s[0]) && !IsWhitespace(s[|s| - 1]))
  }

  /** Rust's `trim_start`: the suffix left after dropping leading whitespace. */
  function TrimStart(s: string): (r: string)
    ensures |r| <= |s| && r == s[|s| - |r|..]
    ensures |r| == 0 || !IsWhitespace(r[0])
  {
    if |s| > 0 && IsWhitespace(s[0]) then TrimStart(s[1..]) else s
  }

  /** Rust's `trim_end`: the prefix left after dropping trailing whitespace. */
  function TrimEnd(s: string): (r: string)
    ensures |r| <= |s| && r == s[..|r|]
    ensures |r| == 0 || !IsWhitespace(r[|r| - 1])
  {
    if |s| > 0 && IsWhitespace(s[|s| - 1]) then TrimEnd(s[..|s| - 1]) else s
  }

  /** `trim_start` drops whitespace only. */
  lemma {:induction false} TrimStartDropsWhitespace(s: string)
    ensures AllWhitespace(s[..|s| - |TrimStart(s)|])
  {
    if |s| > 0 && IsWhitespace(s[0]) {
      TrimStartDropsWhitespace(s[1..]);
      var n := |s| - |TrimStart(s)|;
      assert s[..n] == [s[0]] + s[1..][..n - 1];
    }
  }

  /** `trim_end` drops whitespace only. */
  lemma {:induction false} TrimEndDropsWhitespace(s: string)
    ensures AllWhitespace(s[|TrimEnd(s)|..])
  {
    if |s| > 0 && IsWhitespace(s[|s| - 1]) {
      var p := s[..|s| - 1];
      var r := TrimEnd(p);
      TrimEndDropsWhitespace(p);
      assert TrimEnd(s) == r;
      forall j | 0 <= j < |s| - |r|
        ensures IsWhitespace(s[|r|..][j])
      {
        if |r| + j < |s| - 1 {
          assert s[|r|..][j] == p[|r|..][j];
        }
      }
    }
  }

  /**
   Rust's `trim`: a stretch of `s` that neither starts nor ends with whitespace,
   starting where the leading whitespace ends.
   */
  function Trim(s: string): (r: string)
    ensures Trimmed(r)
    ensures LeadingWhitespace(s) + |r| <= |s|
    ensures r == s[LeadingWhitespace(s)..LeadingWhitespace(s) + |r|]
  {
    var t := TrimStart(s);
    var r := TrimEnd(t);
    PrefixOfSuffix(s, t, r);
    TrimmedPrefix(t, r);
    r
  }

  /** A prefix that ends in non-whitespace, of a string that starts with non-whitespace, is trimmed. */
  lemma TrimmedPrefix(t: string, r: string)
    requires |r| <= |t| && r == t[..|r|]
    requires |t| == 0 || !IsWhitespace(t[0])
    requires |r| == 0 || !IsWhitespace(r[|r| - 1])
    ensures Trimmed(r)
  {
    if |r| > 0 {
      assert r[0] == t[0];
    }
  }

  /** A prefix of a suffix of `s` is a stretch of `s`. */
  lemma PrefixOfSuffix(s: string, t: string, r: string)
    requires |t| <= |s| && t == s[|s| - |t|..]
    requires |r| <= |t| && r == t[..|r|]
    ensures r == s[|s| - |t|..|s| - |t| + |r|]
  {
  }

  /** How many whitespace characters `trim` drops from the front of `s`. */
  function LeadingWhitespace(s: string): nat
  {
    |s| - |TrimStart(s)|
  }

  /** What `trim` drops on either side is whitespace. */
  lemma TrimDropsWhitespace(s: string)
    ensures AllWhitespace(s[..LeadingWhitespace(s)])
    ensures AllWhitespace(s[LeadingWhitespace(s) + |Trim(s)|..])
  {
    var t, k := TrimStart(s), LeadingWhitespace(s);
    TrimStartDropsWhitespace(s);
    TrimEndDropsWhitespace(t);
    assert t == s[k..] && |Trim(s)| == |TrimEnd(t)|;
    assert s[k + |Trim(s)|..] == t[|TrimEnd(t)|..];
  }

  lemma {:induction false} TrimStartPadded(w: string, t: string)
    requires AllWhitespace(w)
    requires |t| == 0 || !IsWhitespace(t[0])
    ensures TrimStart(w + t) == t
  {
    if |w| > 0 {
      assert (w + t)[1..] == w[1..] + t;
      TrimStartPadded(w[1..], t);
    } else {
      assert w + t == t;
    }
  }

  lemma {:induction false} TrimEndPadded(t: string, w: string)
    requires AllWhitespace(w)
    requires |t| == 0 || !IsWhitespace(t[|t| - 1])
    ensures TrimEnd(t + w) == t
  {
    if |w| > 0 {
      assert (t + w)[..|t + w| - 1] == t + w[..|w| - 1];
      TrimEndPadded(t, w[..|w| - 1]);
    } else {
      assert t + w == t;
    }
  }

  /** `trim` removes exactly the whitespace padding around a trimmed string. */
  lemma TrimPadded(w1: string, m: string, w2: string)
    requires AllWhitespace(w1) && AllWhitespace(w2)
    requires Trimmed(m)
    ensures Trim(w1 + m + w2) == m
  {
    if |m| == 0 {
      assert w1 + m + w2 == w1 + w2;
      var s := w1 + w2;
      assert AllWhitespace(s);
      var t := TrimStart(s);
    } else {
      assert w1 + m + w2 == w1 + (m + w2);
      TrimStartPadded(w1, m + w2);
      TrimEndPadded(m, w2);
    }
  }

  /** The ASCII part of Rust's `char::to_lowercase`. */
  function LowerChar(ch: char): char
  {
    if 'A' <= ch <= 'Z' then (ch as int + 32) as char else ch
  }

  /** Rust's `to_lowercase` on the ASCII letters; every other character is kept. */
  function ToLowerAscii(s: string): (r: string)
    ensures |r| == |s|
    ensures forall i :: 0 <= i < |s| ==> r[i] == LowerChar(s[i])
  {
    seq(|s|, i requires 0 <= i < |s| => LowerChar(s[i]))
  }

  /** No character of `s` changes under lowercasing. */
  predicate IsLower(s: string)
  {
    forall i :: 0 <= i < |s| ==> LowerChar(s[i]) == s[i]
  }

  /** Lowercasing introduces no character that is not an ASCII lowercase letter. */
  lemma ToLowerAsciiKeepsAbsent(s: string, c: char)
    requires c !in s && !('a' <= c <= 'z')
    ensures c !in ToLowerAscii(s)
  {
  }

  /** Trimming introduces no character. */
  lemma TrimKeepsAbsent(s: string, c: char)
    requires c !in s
    ensures c !in Trim(s)
  {
  }

  /** Trimming a lowercase string leaves it lowercase. */
  lemma TrimKeepsLower(s: string)
    requires IsLower(s)
    ensures IsLower(Trim(s))
  {
    var k := LeadingWhitespace(s);
    SliceKeepsLower(s, k, k + |Trim(s)|);
  }

  lemma SliceKeepsLower(s: string, a: nat, b: nat)
    requires IsLower(s) && a <= b <= |s|
    ensures IsLower(s[a..b])
  {
    var t := s[a..b];
    forall i | 0 <= i < |t|
      ensures LowerChar(t[i]) == t[i]
    {
      assert t[i] == s[a + i];
    }
  }

  lemma ToLowerAsciiIsLower(s: string)
    ensures IsLower(ToLowerAscii(s))
  {
  }

  lemma ToLowerAsciiOfLower(s: string)
    requires IsLower(s)
    ensures ToLowerAscii(s) == s
  {
  }

  lemma ToLowerAsciiPrefix(s: string, n: nat)
    requires n <= |s|
    ensures ToLowerAscii(s)[..n] == ToLowerAscii(s[..n])
  {
  }

  /**
   Lowercasing leaves no ASCII capital behind and changes exactly the ASCII
   capitals, each into the letter 32 code points above it.
   */
  lemma ToLowerAsciiChangesOnlyCapitals(s: string)
    ensures forall i :: 0 <= i < |s| ==> !('A' <= ToLowerAscii(s)[i] <= 'Z')
    ensures forall i :: 0 <= i < |s| ==> (ToLowerAscii(s)[i] != s[i] <==> 'A' <= s[i] <= 'Z')
    ensures forall i :: 0 <= i < |s| && 'A' <= s[i] <= 'Z' ==> ToLowerAscii(s)[i] as int == s[i] as int + 32
  {
  }

  /** Lowercasing twice is lowercasing once. */
  lemma ToLowerAsciiIdempotent(s: string)
    ensures ToLowerAscii(ToLowerAscii(s)) == ToLowerAscii(s)
  {
    ToLowerAsciiIsLower(s);
    ToLowerAsciiOfLower(ToLowerAscii(s));
  }

  /** A string is left unchanged by lowercasing exactly when it is already lowercase. */
  lemma ToLowerAsciiFixedIff(s: string)
    ensures ToLowerAscii(s) == s <==> IsLower(s)
  {
    if ToLowerAscii(s) == s {
      ToLowerAsciiIsLower(s);
    } else if IsLower(s) {
      ToLowerAsciiOfLower(s);
    }
  }

  /** Lowercasing works character by character, so it distributes over concatenation. */
  lemma ToLowerAsciiAppend(a: string, b: string)
    ensures ToLowerAscii(a + b) == ToLowerAscii(a) + ToLowerAscii(b)
  {
  }
}
