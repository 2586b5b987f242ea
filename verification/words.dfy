/** String helpers of the name generator: `sep.join(words)`, splitting on one character,
    and the keyword clean-up `[w.strip().lower() for w in words if w.strip()]`, the
    last two restricted to ASCII (see README). */
module Words {
  import opened Seqs

  /** Python's `str.isspace()` on the ASCII range: space, `\t` `\n` `\v` `\f` `\r`
      (9 to 13) and the separators 28 to 31. */
  predicate IsSpace(c: char) {
    var n := c as int;
    n == 32 || 9 <= n <= 13 || 28 <= n <= 31
  }

  predicate IsUpper(c: char) {
    'A' <= c <= 'Z'
  }

  /** `sep.join(ws)`. */
  function Join(ws: seq<string>, sep: string): (r: string)
    ensures |ws| == 0 ==> r == ""
    ensures |ws| == 1 ==> r == ws[0]
    decreases |ws|
  {
    if |ws| == 0 then "" else if |ws| == 1 then ws[0] else ws[0] + sep + Join(ws[1..], sep)
  }

  /** Joining a longer list puts the separator between the joins of its parts. */
  lemma {:induction false} JoinAppend(a: seq<string>, b: seq<string>, sep: string)
    requires |a| >= 1 && |b| >= 1
    ensures Join(a + b, sep) == Join(a, sep) + sep + Join(b, sep)
    decreases |a|
  {
    if |a| == 1 {
      assert (a + b)[1..] == b;
    } else {
      assert (a + b)[1..] == a[1..] + b;
      JoinAppend(a[1..], b, sep);
    }
  }

  /** `s.split(c)`: the maximal pieces of `s` between occurrences of `c`. */
  function Split(s: string, c: char): (parts: seq<string>)
    ensures |parts| >= 1
    ensures forall k :: 0 <= k < |parts| ==> c !in parts[k]
    decreases |s|
  {
    if |s| == 0 then [""]
    else
      var rest := Split(s[1..], c);
      if s[0] == c then [""] + rest else [[s[0]] + rest[0]] + rest[1..]
  }

  lemma {:induction false} SplitNoSeparator(w: string, c: char)
    requires c !in w
    ensures Split(w, c) == [w]
    decreases |w|
  {
    if |w| > 0 {
      SplitNoSeparator(w[1..], c);
      assert [w[0]] + w[1..] == w;
    }
  }

  lemma {:induction false} SplitAfterWord(w: string, c: char, t: string)
    requires c !in w
    ensures Split(w + [c] + t, c) == [w] + Split(t, c)
    decreases |w|
  {
    var s := w + [c] + t;
    if |w| == 0 {
      assert s[1..] == t;
    } else {
      assert s[1..] == w[1..] + [c] + t;
      SplitAfterWord(w[1..], c, t);
      assert [w[0]] + w[1..] == w;
    }
  }

  /** Joining words that do not contain the separator character loses nothing:
      splitting the join gives the words back. */
  lemma {:induction false} SplitJoin(ws: seq<string>, c: char)
    requires |ws| >= 1
    requires forall k :: 0 <= k < |ws| ==> c !in ws[k]
    ensures Split(Join(ws, [c]), c) == ws
    decreases |ws|
  {
    if |ws| == 1 {
      SplitNoSeparator(ws[0], c);
    } else {
      SplitJoin(ws[1..], c);
      SplitAfterWord(ws[0], c, Join(ws[1..], [c]));
      assert [ws[0]] + ws[1..] == ws;
    }
  }

  /** The number of leading whitespace characters of `s`. */
  function LeadingSpaces(s: string): (n: nat)
    ensures n <= |s|
    ensures forall i :: 0 <= i < n ==> IsSpace(s[i])
    ensures n < |s| ==> !IsSpace(s[n])
    decreases |s|
  {
    if |s| > 0 && IsSpace(s[0]) then 1 + LeadingSpaces(s[1..]) else 0
  }

  /** The number of trailing whitespace characters of `s`. */
  function TrailingSpaces(s: string): (n: nat)
    ensures n <= |s|
    ensures forall i :: |s| - n <= i < |s| ==> IsSpace(s[i])
    ensures n < |s| ==> !IsSpace(s[|s| - 1 - n])
    decreases |s|
  {
    if |s| > 0 && IsSpace(s[|s| - 1]) then 1 + TrailingSpaces(s[..|s| - 1]) else 0
  }

  /** `s[i..j]` is `s` with whitespace, and only whitespace, cut from both ends. */
  predicate Trims(s: string, i: int, j: int) {
    && 0 <= i <= j <= |s|
    && (forall k :: 0 <= k < i ==> IsSpace(s[k]))
    && (forall k :: j <= k < |s| ==> IsSpace(s[k]))
  }

  /** `s.strip()`: the middle of `s` without surrounding whitespace. */
  function Strip(s: string): (r: string)
    ensures |r| <= |s|
    ensures exists i, j :: Trims(s, i, j) && r == s[i..j]
    ensures r == "" <==> forall i :: 0 <= i < |s| ==> IsSpace(s[i])
    ensures r != "" ==> !IsSpace(r[0]) && !IsSpace(r[|r| - 1])
    ensures (|s| == 0 || (!IsSpace(s[0]) && !IsSpace(s[|s| - 1]))) ==> r == s
  {
    var i := LeadingSpaces(s);
    var t := s[i..];
    var j := |s| - TrailingSpaces(t);
    TrailingAreSpaces(s, i, t);
    assert i < j ==> s[i] == t[0] && s[j - 1] == t[|t| - 1 - TrailingSpaces(t)];
    assert Trims(s, i, j);
    s[i..j]
  }

  /** The whitespace cut from the end of `s[i..]` is whitespace of `s`. */
  lemma TrailingAreSpaces(s: string, i: nat, t: string)
    requires i <= |s| && t == s[i..]
    ensures forall k :: i + |t| - TrailingSpaces(t) <= k < |s| ==> IsSpace(s[k])
  {
    forall k | i + |t| - TrailingSpaces(t) <= k < |s| ensures IsSpace(s[k]) {
      assert s[k] == t[k - i];
    }
  }

  function LowerChar(c: char): (d: char)
    ensures !IsUpper(d)
    ensures !IsUpper(c) ==> d == c
    ensures IsUpper(c) ==> d as int == c as int + 32
  {
    if IsUpper(c) then (c as int + 32) as char else c
  }

  /** `s.lower()` on ASCII letters; every other character is kept. */
  function Lower(s: string): (r: string)
    ensures |r| == |s|
    ensures forall i :: 0 <= i < |s| ==> !IsUpper(r[i])
    ensures forall i :: 0 <= i < |s| ==> r[i] == s[i] || (IsUpper(s[i]) && r[i] as int == s[i] as int + 32)
    ensures (forall i :: 0 <= i < |s| ==> !IsUpper(s[i])) ==> r == s
  {
    seq(|s|, i requires 0 <= i < |s| => LowerChar(s[i]))
  }

  /** Lower-casing a word without surrounding whitespace gives a clean keyword. */
  lemma LowerKeepsEnds(t: string)
    requires t != "" && !IsSpace(t[0]) && !IsSpace(t[|t| - 1])
    ensures IsNormal(Lower(t))
  {
    var l := Lower(t);
    assert l[0] == t[0] || IsUpper(t[0]);
    assert l[|l| - 1] == t[|t| - 1] || IsUpper(t[|t| - 1]);
  }

  /** A cleaned-up keyword: non-empty, no surrounding whitespace, no capital letters. */
  predicate IsNormal(w: string) {
    && w != ""
    && !IsSpace(w[0]) && !IsSpace(w[|w| - 1])
    && forall i :: 0 <= i < |w| ==> !IsUpper(w[i])
  }

  /** Which words of `ws` survive the clean-up: those not all whitespace. */
  function Kept(ws: seq<string>): (r: seq<bool>)
    ensures |r| == |ws|
    ensures forall k :: 0 <= k < |ws| ==> (r[k] <==> Strip(ws[k]) != "")
  {
    seq(|ws|, k requires 0 <= k < |ws| => Strip(ws[k]) != "")
  }

  /** Every word of `ws` stripped and lower-cased. */
  function Cleaned(ws: seq<string>): (r: seq<string>)
    ensures |r| == |ws|
    ensures forall k :: 0 <= k < |ws| ==> r[k] == Lower(Strip(ws[k]))
  {
    seq(|ws|, k requires 0 <= k < |ws| => Lower(Strip(ws[k])))
  }

  /** One word cleaned: nothing when it is all whitespace, otherwise the stripped,
      lower-cased word, which is a clean keyword. */
  function CleanOne(w: string): (r: seq<string>)
    ensures r == Pick(Strip(w) != "", Lower(Strip(w)))
    ensures r != [] ==> IsNormal(r[0])
    ensures IsNormal(w) ==> r == [w]
  {
    var t := Strip(w);
    if t == "" then [] else LowerKeepsEnds(t); [Lower(t)]
  }

  /** The keyword clean-up of the generator's constructor: strip each word, drop the
      ones left empty, lower-case the rest, keeping their order. */
  function Normalize(ws: seq<string>): (r: seq<string>)
    ensures |r| <= |ws|
    ensures exists idx :: SelectsAt(idx, Kept(ws), Cleaned(ws), r)
    ensures forall k :: 0 <= k < |r| ==> IsNormal(r[k])
    ensures (forall k :: 0 <= k < |ws| ==> IsNormal(ws[k])) ==> r == ws
    decreases |ws|
  {
    if |ws| == 0 then
      SelectsNothing(Kept(ws), Cleaned(ws));
      []
    else
      var rest := Normalize(ws[1..]);
      var c := CleanOne(ws[0]);
      var r := c + rest;
      KeptTail(ws);
      SelectStep(Kept(ws), Cleaned(ws), rest, r);
      NormalStep(ws, c, rest, r);
      r
  }

  /** The flags and cleaned words of a list's tail are the tail of its flags and
      cleaned words. */
  lemma KeptTail(ws: seq<string>)
    requires |ws| > 0
    ensures Kept(ws)[1..] == Kept(ws[1..])
    ensures Cleaned(ws)[1..] == Cleaned(ws[1..])
    ensures CleanOne(ws[0]) == Pick(Kept(ws)[0], Cleaned(ws)[0])
  {
    forall k | 0 <= k < |ws| - 1 ensures Kept(ws)[1..][k] == Kept(ws[1..])[k] {
      assert ws[1..][k] == ws[k + 1];
    }
    forall k | 0 <= k < |ws| - 1 ensures Cleaned(ws)[1..][k] == Cleaned(ws[1..])[k] {
      assert ws[1..][k] == ws[k + 1];
    }
  }

  /** Cleaning one more word in front gives clean words, and keeps a list of clean
      words unchanged. */
  lemma NormalStep(ws: seq<string>, c: seq<string>, rest: seq<string>, r: seq<string>)
    requires |ws| > 0 && r == c + rest
    requires c != [] ==> |c| == 1 && IsNormal(c[0])
    requires IsNormal(ws[0]) ==> c == [ws[0]]
    requires (forall k :: 0 <= k < |ws[1..]| ==> IsNormal(ws[1..][k])) ==> rest == ws[1..]
    requires forall k :: 0 <= k < |rest| ==> IsNormal(rest[k])
    ensures forall k :: 0 <= k < |r| ==> IsNormal(r[k])
    ensures (forall k :: 0 <= k < |ws| ==> IsNormal(ws[k])) ==> r == ws
  {
    forall k | 0 <= k < |r| ensures IsNormal(r[k]) {
      if k >= |c| {
        assert r[k] == rest[k - |c|];
      }
    }
    if forall k :: 0 <= k < |ws| ==> IsNormal(ws[k]) {
      forall k | 0 <= k < |ws[1..]| ensures IsNormal(ws[1..][k]) {
        assert ws[1..][k] == ws[k + 1];
      }
      assert ws == [ws[0]] + ws[1..];
    }
  }

  /** `idx` lists, in order, the positions of the words of `ws` that are not all
      whitespace, and `r` holds those words stripped and lower-cased. */
  ghost predicate CleansAt(idx: seq<int>, ws: seq<string>, r: seq<string>) {
    && Increasing(idx, |ws|)
    && |idx| == |r|
    && (forall i :: 0 <= i < |idx| ==> r[i] == Lower(Strip(ws[idx[i]])))
    && (forall k :: 0 <= k < |ws| ==> (k in idx <==> Strip(ws[k]) != ""))
  }

  /** The clean-up keeps, in their order, exactly the words that are not all
      whitespace, each stripped and lower-cased. */
  lemma NormalizeCleansAt(ws: seq<string>)
    ensures exists idx :: CleansAt(idx, ws, Normalize(ws))
  {
    var idx :| SelectsAt(idx, Kept(ws), Cleaned(ws), Normalize(ws));
    assert CleansAt(idx, ws, Normalize(ws));
  }

  /** Cleaning up twice is cleaning up once. */
  lemma NormalizeIdempotent(ws: seq<string>)
    ensures Normalize(Normalize(ws)) == Normalize(ws)
  {
  }
}
