/** The file-name generator: from a few keywords and a fixed vocabulary of modifier
    words it enumerates candidate names in five phases, skips repeats, and stops as
    soon as it has as many as were asked for. */
module NameGenerator {
  import opened Ints
  import opened Decimal
  import opened Seqs
  import opened Permutations
  import opened Words

  // ---------------------------------------------------------------------------
  // Vocabulary

  const Adjectives: seq<string> :=
    ["beautiful", "amazing", "stunning", "gorgeous", "nice",
     "great", "perfect", "lovely", "wonderful"]

  const States: seq<string> :=
    ["new", "fresh", "original", "authentic", "unique",
     "classic", "modern", "vintage", "traditional", "famous"]

  const SeoSuffixes: seq<string> :=
    ["photo", "image", "picture", "pic", "wallpaper",
     "background", "cover", "banner", "hd", "4k", "free", "stock"]

  /** All modifier words, category by category, in declaration order. */
  const Vocabulary: seq<string> := Adjectives + States + SeoSuffixes

  lemma CategoriesDisjoint()
    ensures Disjoint(Adjectives, States) && Disjoint(Adjectives, SeoSuffixes)
    ensures Disjoint(States, SeoSuffixes)
  {
  }

  /** The 31 modifier words are pairwise different and already lower case. */
  lemma VocabularyFacts()
    ensures |Vocabulary| == 31
    ensures Distinct(Vocabulary)
    ensures forall k :: 0 <= k < |Vocabulary| ==> Lower(Vocabulary[k]) == Vocabulary[k]
  {
    assert Distinct(Adjectives) && Distinct(States) && Distinct(SeoSuffixes);
    CategoriesDisjoint();
    DistinctConcat(Adjectives, States);
    var ab := Adjectives + States;
    assert Disjoint(ab, SeoSuffixes) by {
      forall i, j | 0 <= i < |ab| && 0 <= j < |SeoSuffixes| ensures ab[i] != SeoSuffixes[j] {
        if i >= |Adjectives| {
          assert ab[i] == States[i - |Adjectives|];
        }
      }
    }
    DistinctConcat(ab, SeoSuffixes);
    VocabularyLowerCase();
  }

  lemma VocabularyLowerCase()
    ensures forall k :: 0 <= k < |Vocabulary| ==> Lower(Vocabulary[k]) == Vocabulary[k]
  {
    AdjectivesLower();
    StatesLower();
    SeoSuffixesLower();
    forall k | 0 <= k < |Vocabulary| ensures NoCapitals(Vocabulary[k]) {
      if k < |Adjectives| {
        assert Vocabulary[k] == Adjectives[k];
      } else if k < |Adjectives| + |States| {
        assert Vocabulary[k] == States[k - |Adjectives|];
      } else {
        assert Vocabulary[k] == SeoSuffixes[k - |Adjectives| - |States|];
      }
    }
  }

  predicate NoCapitals(w: string) {
    forall i :: 0 <= i < |w| ==> !IsUpper(w[i])
  }

  lemma AdjectivesLower()
    ensures forall k :: 0 <= k < |Adjectives| ==> NoCapitals(Adjectives[k])
  {
  }

  lemma StatesLower()
    ensures forall k :: 0 <= k < |States| ==> NoCapitals(States[k])
  {
  }

  lemma SeoSuffixesLower()
    ensures forall k :: 0 <= k < |SeoSuffixes| ==> NoCapitals(SeoSuffixes[k])
  {
  }

  /** For each word of `vs`, whether its lower-case form is not a keyword. */
  function NotKeyword(vs: seq<string>, base: seq<string>): (r: seq<bool>)
    ensures |r| == |vs|
    ensures forall k :: 0 <= k < |vs| ==> (r[k] <==> Lower(vs[k]) !in base)
  {
    seq(|vs|, k requires 0 <= k < |vs| => Lower(vs[k]) !in base)
  }

  /** The words of `vs`, in order, whose lower-case form is not a keyword. */
  function Keep(vs: seq<string>, base: seq<string>): (mods: seq<string>)
    ensures |mods| <= |vs|
    ensures exists idx :: SelectsAt(idx, NotKeyword(vs, base), vs, mods)
    ensures forall m :: m in mods <==> m in vs && Lower(m) !in base
    ensures (forall k :: 0 <= k < |vs| ==> Lower(vs[k]) !in base) ==> mods == vs
    ensures Distinct(vs) ==> Distinct(mods)
    decreases |vs|
  {
    if |vs| == 0 then
      SelectsNothing(NotKeyword(vs, base), vs);
      []
    else
      var rest := Keep(vs[1..], base);
      var mods := Pick(Lower(vs[0]) !in base, vs[0]) + rest;
      NotKeywordTail(vs, base);
      SelectStep(NotKeyword(vs, base), vs, rest, mods);
      KeepMembersStep(vs, base, rest, mods);
      KeepAllStep(vs, base, rest, mods);
      KeepDistinctStep(vs, base, rest, mods);
      mods
  }

  /** One step of `Keep`: its members are the tail's plus the head when that is kept. */
  lemma KeepMembersStep(vs: seq<string>, base: seq<string>, rest: seq<string>, mods: seq<string>)
    requires |vs| > 0 && mods == Pick(Lower(vs[0]) !in base, vs[0]) + rest
    requires forall m :: m in rest <==> m in vs[1..] && Lower(m) !in base
    ensures forall m :: m in mods <==> m in vs && Lower(m) !in base
  {
    HeadTailMembers(vs);
  }

  /** One step of `Keep`: when no word is a keyword, nothing is dropped. */
  lemma KeepAllStep(vs: seq<string>, base: seq<string>, rest: seq<string>, mods: seq<string>)
    requires |vs| > 0 && mods == Pick(Lower(vs[0]) !in base, vs[0]) + rest
    requires (forall k :: 0 <= k < |vs[1..]| ==> Lower(vs[1..][k]) !in base) ==> rest == vs[1..]
    ensures (forall k :: 0 <= k < |vs| ==> Lower(vs[k]) !in base) ==> mods == vs
  {
    if forall k :: 0 <= k < |vs| ==> Lower(vs[k]) !in base {
      forall k | 0 <= k < |vs| - 1 ensures Lower(vs[1..][k]) !in base {
        assert vs[1..][k] == vs[k + 1];
      }
      assert vs == [vs[0]] + vs[1..];
    }
  }

  /** One step of `Keep`: a filter of words without repeats has none. */
  lemma KeepDistinctStep(vs: seq<string>, base: seq<string>, rest: seq<string>, mods: seq<string>)
    requires |vs| > 0 && mods == Pick(Lower(vs[0]) !in base, vs[0]) + rest
    requires forall m :: m in rest ==> m in vs[1..]
    requires Distinct(vs[1..]) ==> Distinct(rest)
    ensures Distinct(vs) ==> Distinct(mods)
  {
    if Distinct(vs) {
      DistinctTail(vs);
      if Lower(vs[0]) !in base {
        DistinctConcat([vs[0]], rest);
      }
    }
  }

  lemma NotKeywordTail(vs: seq<string>, base: seq<string>)
    requires |vs| > 0
    ensures NotKeyword(vs, base)[1..] == NotKeyword(vs[1..], base)
  {
    forall k | 0 <= k < |vs| - 1 ensures NotKeyword(vs, base)[1..][k] == NotKeyword(vs[1..], base)[k] {
      assert vs[1..][k] == vs[k + 1];
    }
  }

  lemma HeadTailMembers(vs: seq<string>)
    requires |vs| > 0
    ensures forall m :: m in vs <==> m == vs[0] || m in vs[1..]
  {
    assert vs == [vs[0]] + vs[1..];
  }

  /** The modifier pool: the vocabulary minus the words that are already keywords. */
  function ModifierPool(base: seq<string>): (mods: seq<string>)
    ensures Distinct(mods) && |mods| <= 31
    ensures exists idx :: SelectsAt(idx, NotKeyword(Vocabulary, base), Vocabulary, mods)
    ensures forall m :: m in mods <==> m in Vocabulary && m !in base
    ensures (forall k :: 0 <= k < |base| ==> base[k] !in Vocabulary) ==> mods == Vocabulary
  {
    VocabularyFacts();
    assert forall m :: m in Vocabulary ==> Lower(m) == m;
    Keep(Vocabulary, base)
  }

  /** A generator holds its cleaned-up keywords and its modifier pool. */
  datatype Generator = Generator(baseWords: seq<string>, modifiers: seq<string>)

  /** The generator's constructor. */
  function New(words: seq<string>): (g: Generator)
    ensures g.baseWords == Normalize(words)
    ensures forall k :: 0 <= k < |g.baseWords| ==> IsNormal(g.baseWords[k])
    ensures g.modifiers == ModifierPool(g.baseWords)
  {
    var base := Normalize(words);
    Generator(base, ModifierPool(base))
  }

  // ---------------------------------------------------------------------------
  // The enumeration of phases 1 to 4

  /** A candidate name before it is spelled out: its words and the separator. */
  datatype Candidate = Candidate(pre: seq<string>, ordering: seq<string>, post: seq<string>, sep: string)

  /** `sep.join(words)`. */
  function Text(c: Candidate): string {
    Join(c.pre + c.ordering + c.post, c.sep)
  }

  /** The candidates spelled out, one for one. */
  function Texts(cs: seq<Candidate>): (ts: seq<string>)
    ensures |ts| == |cs|
    ensures forall i :: 0 <= i < |cs| ==> ts[i] == Text(cs[i])
  {
    seq(|cs|, i requires 0 <= i < |cs| => Text(cs[i]))
  }

  /** For each ordering and then each separator (`-` before `_`), the words
      `pre + ordering + post`. */
  function Variants(perms: seq<seq<string>>, pre: seq<string>, post: seq<string>): (vs: seq<Candidate>)
    ensures |vs| == 2 * |perms|
    decreases |perms|
  {
    if |perms| == 0 then []
    else
      [Candidate(pre, perms[0], post, "-"), Candidate(pre, perms[0], post, "_")] + Variants(perms[1..], pre, post)
  }

  /** Ordering `i` gives the variants at `2i` (joined with `-`) and `2i + 1` (joined
      with `_`), so at `2i` the name `"-".join(pre + ordering + post)`. */
  lemma {:induction false} VariantsAt(perms: seq<seq<string>>, pre: seq<string>, post: seq<string>, i: nat)
    requires i < |perms|
    ensures Variants(perms, pre, post)[2 * i] == Candidate(pre, perms[i], post, "-")
    ensures Variants(perms, pre, post)[2 * i + 1] == Candidate(pre, perms[i], post, "_")
    decreases i
  {
    if i > 0 {
      VariantsAt(perms[1..], pre, post, i - 1);
      assert perms[1..][i - 1] == perms[i];
    }
  }

  /** Phase 2: each modifier in front of every ordering. */
  function Prefixed(mods: seq<string>, perms: seq<seq<string>>): (vs: seq<Candidate>)
    ensures |vs| == |mods| * (2 * |perms|)
    decreases |mods|
  {
    if |mods| == 0 then [] else Variants(perms, [mods[0]], []) + Prefixed(mods[1..], perms)
  }

  /** Phase 3: each modifier after every ordering. */
  function Suffixed(mods: seq<string>, perms: seq<seq<string>>): (vs: seq<Candidate>)
    ensures |vs| == |mods| * (2 * |perms|)
    decreases |mods|
  {
    if |mods| == 0 then [] else Variants(perms, [], [mods[0]]) + Suffixed(mods[1..], perms)
  }

  /** Phase 4 for one first modifier: every other modifier after the ordering. */
  function Around(first: string, mods: seq<string>, perms: seq<seq<string>>): seq<Candidate>
    decreases |mods|
  {
    if |mods| == 0 then []
    else
      (if first != mods[0] then Variants(perms, [first], [mods[0]]) else [])
      + Around(first, mods[1..], perms)
  }

  /** Phase 4: ordered pairs of different modifiers around every ordering. */
  function Doubled(firsts: seq<string>, mods: seq<string>, perms: seq<seq<string>>): seq<Candidate>
    decreases |firsts|
  {
    if |firsts| == 0 then [] else Around(firsts[0], mods, perms) + Doubled(firsts[1..], mods, perms)
  }

  /** Every candidate of phases 1 to 4, repeats included, in the order they are tried. */
  function Plan(g: Generator): seq<Candidate> {
    var perms := Perms(g.baseWords);
    Variants(perms, [], [])
      + Prefixed(g.modifiers, perms)
      + Suffixed(g.modifiers, perms)
      + Doubled(g.modifiers, g.modifiers, perms)
  }

  /** The candidate names of phases 1 to 4, spelled out. */
  function Candidates(g: Generator): seq<string> {
    Texts(Plan(g))
  }

  /** Phase 2 for a list of modifiers is phase 2 for its front part followed by
      phase 2 for the rest. */
  lemma {:induction false} PrefixedAppend(a: seq<string>, b: seq<string>, perms: seq<seq<string>>)
    ensures Prefixed(a + b, perms) == Prefixed(a, perms) + Prefixed(b, perms)
    decreases |a|
  {
    if |a| == 0 {
      assert a + b == b;
    } else {
      assert (a + b)[0] == a[0] && (a + b)[1..] == a[1..] + b;
      PrefixedAppend(a[1..], b, perms);
    }
  }

  /** Phase 2 around modifier `i`: the modifiers before it, its own block, the
      modifiers after it. */
  lemma {:induction false} PrefixedSplit(mods: seq<string>, perms: seq<seq<string>>, i: nat)
    requires i < |mods|
    ensures Prefixed(mods, perms) == Prefixed(mods[..i], perms) + (Variants(perms, [mods[i]], []) + Prefixed(mods[i + 1..], perms))
  {
    PrefixedAppend(mods[..i], mods[i..], perms);
    assert mods[..i] + mods[i..] == mods;
    assert mods[i..][0] == mods[i] && mods[i..][1..] == mods[i + 1..];
  }

  /** Phase 2 by position: the candidates of modifier `i` start at `i * 2|perms|`, and
      the `x`-th of them is the `x`-th variant of `[mods[i]], []`
      (for ordering `x / 2`, `-` when `x` is even and `_` when it is odd, by `Variants`). */
  lemma {:induction false} PrefixedAt(mods: seq<string>, perms: seq<seq<string>>, i: nat, x: nat)
    requires i < |mods| && x < 2 * |perms|
    ensures i * (2 * |perms|) + x < |Prefixed(mods, perms)|
    ensures Prefixed(mods, perms)[i * (2 * |perms|) + x] == Variants(perms, [mods[i]], [])[x]
  {
    PrefixedSplit(mods, perms, i);
    BlockAt(Prefixed(mods, perms), Prefixed(mods[..i], perms), Variants(perms, [mods[i]], []), Prefixed(mods[i + 1..], perms), x);
  }

  /** Phase 2 name by name: ordering `j` with modifier `i` in front sits at
      `i * 2|perms| + 2j` with `-` and right after it with `_`. */
  lemma {:induction false} PrefixedNames(mods: seq<string>, perms: seq<seq<string>>, i: nat, j: nat)
    requires i < |mods| && j < |perms|
    ensures i * (2 * |perms|) + 2 * j + 1 < |Prefixed(mods, perms)|
    ensures Prefixed(mods, perms)[i * (2 * |perms|) + 2 * j] == Candidate([mods[i]], perms[j], [], "-")
    ensures Prefixed(mods, perms)[i * (2 * |perms|) + 2 * j + 1] == Candidate([mods[i]], perms[j], [], "_")
  {
    PrefixedAt(mods, perms, i, 2 * j);
    PrefixedAt(mods, perms, i, 2 * j + 1);
    VariantsAt(perms, [mods[i]], [], j);
  }

  /** Phase 3 for a list of modifiers is phase 3 for its front part followed by
      phase 3 for the rest. */
  lemma {:induction false} SuffixedAppend(a: seq<string>, b: seq<string>, perms: seq<seq<string>>)
    ensures Suffixed(a + b, perms) == Suffixed(a, perms) + Suffixed(b, perms)
    decreases |a|
  {
    if |a| == 0 {
      assert a + b == b;
    } else {
      assert (a + b)[0] == a[0] && (a + b)[1..] == a[1..] + b;
      SuffixedAppend(a[1..], b, perms);
    }
  }

  /** Phase 3 around modifier `i`: the modifiers before it, its own block, the
      modifiers after it. */
  lemma {:induction false} SuffixedSplit(mods: seq<string>, perms: seq<seq<string>>, i: nat)
    requires i < |mods|
    ensures Suffixed(mods, perms) == Suffixed(mods[..i], perms) + (Variants(perms, [], [mods[i]]) + Suffixed(mods[i + 1..], perms))
  {
    SuffixedAppend(mods[..i], mods[i..], perms);
    assert mods[..i] + mods[i..] == mods;
    assert mods[i..][0] == mods[i] && mods[i..][1..] == mods[i + 1..];
  }

  /** Phase 3 by position: the candidates of modifier `i` start at `i * 2|perms|`, and
      the `x`-th of them is the `x`-th variant of `[], [mods[i]]`
      (for ordering `x / 2`, `-` when `x` is even and `_` when it is odd, by `Variants`). */
  lemma {:induction false} SuffixedAt(mods: seq<string>, perms: seq<seq<string>>, i: nat, x: nat)
    requires i < |mods| && x < 2 * |perms|
    ensures i * (2 * |perms|) + x < |Suffixed(mods, perms)|
    ensures Suffixed(mods, perms)[i * (2 * |perms|) + x] == Variants(perms, [], [mods[i]])[x]
  {
    SuffixedSplit(mods, perms, i);
    BlockAt(Suffixed(mods, perms), Suffixed(mods[..i], perms), Variants(perms, [], [mods[i]]), Suffixed(mods[i + 1..], perms), x);
  }

  /** Phase 3 name by name: ordering `j` with modifier `i` after it sits at
      `i * 2|perms| + 2j` with `-` and right after it with `_`. */
  lemma {:induction false} SuffixedNames(mods: seq<string>, perms: seq<seq<string>>, i: nat, j: nat)
    requires i < |mods| && j < |perms|
    ensures i * (2 * |perms|) + 2 * j + 1 < |Suffixed(mods, perms)|
    ensures Suffixed(mods, perms)[i * (2 * |perms|) + 2 * j] == Candidate([], perms[j], [mods[i]], "-")
    ensures Suffixed(mods, perms)[i * (2 * |perms|) + 2 * j + 1] == Candidate([], perms[j], [mods[i]], "_")
  {
    SuffixedAt(mods, perms, i, 2 * j);
    SuffixedAt(mods, perms, i, 2 * j + 1);
    VariantsAt(perms, [], [mods[i]], j);
  }

  /** The element at offset `x` of a block that follows `front`. */
  lemma BlockAt<T>(whole: seq<T>, front: seq<T>, block: seq<T>, tail: seq<T>, x: nat)
    requires whole == front + (block + tail) && x < |block|
    ensures |front| + x < |whole| && whole[|front| + x] == block[x]
  {
  }

  /** Phase 4 for one first modifier over a list of second modifiers is the same over
      its front part followed by the rest. */
  lemma {:induction false} AroundAppend(first: string, a: seq<string>, b: seq<string>, perms: seq<seq<string>>)
    ensures Around(first, a + b, perms) == Around(first, a, perms) + Around(first, b, perms)
    decreases |a|
  {
    if |a| == 0 {
      assert a + b == b;
    } else {
      assert (a + b)[0] == a[0] && (a + b)[1..] == a[1..] + b;
      AroundAppend(first, a[1..], b, perms);
    }
  }

  lemma {:induction false} AroundSplit(first: string, mods: seq<string>, perms: seq<seq<string>>, k: nat)
    requires k < |mods| && mods[k] != first
    ensures Around(first, mods, perms)
         == Around(first, mods[..k], perms) + (Variants(perms, [first], [mods[k]]) + Around(first, mods[k + 1..], perms))
  {
    AroundAppend(first, mods[..k], mods[k..], perms);
    assert mods[..k] + mods[k..] == mods;
    assert mods[k..][0] == mods[k] && mods[k..][1..] == mods[k + 1..];
  }

  /** Phase 4 for one first modifier, by position: the candidates of a second modifier
      `mods[k]` other than `first` come after those of the earlier second modifiers, and
      the `x`-th of them is the `x`-th variant of `first`, ordering, `mods[k]`. */
  lemma {:induction false} AroundAt(first: string, mods: seq<string>, perms: seq<seq<string>>, k: nat, x: nat)
    requires k < |mods| && mods[k] != first && x < 2 * |perms|
    ensures |Around(first, mods[..k], perms)| + x < |Around(first, mods, perms)|
    ensures Around(first, mods, perms)[|Around(first, mods[..k], perms)| + x]
         == Variants(perms, [first], [mods[k]])[x]
  {
    AroundSplit(first, mods, perms, k);
    BlockAt(Around(first, mods, perms), Around(first, mods[..k], perms), Variants(perms, [first], [mods[k]]),
            Around(first, mods[k + 1..], perms), x);
  }

  /** Phase 4 for one first modifier, name by name: ordering `j` between `first` and a
      different second modifier `mods[k]` sits `2j` after the earlier second modifiers'
      candidates with `-`, and right after that with `_`. */
  lemma {:induction false} AroundNames(first: string, mods: seq<string>, perms: seq<seq<string>>, k: nat, j: nat)
    requires k < |mods| && mods[k] != first && j < |perms|
    ensures |Around(first, mods[..k], perms)| + 2 * j + 1 < |Around(first, mods, perms)|
    ensures Around(first, mods, perms)[|Around(first, mods[..k], perms)| + 2 * j] == Candidate([first], perms[j], [mods[k]], "-")
    ensures Around(first, mods, perms)[|Around(first, mods[..k], perms)| + 2 * j + 1] == Candidate([first], perms[j], [mods[k]], "_")
  {
    AroundAt(first, mods, perms, k, 2 * j);
    AroundAt(first, mods, perms, k, 2 * j + 1);
    VariantsAt(perms, [first], [mods[k]], j);
  }

  lemma {:induction false} DoubledAppend(a: seq<string>, b: seq<string>, mods: seq<string>, perms: seq<seq<string>>)
    ensures Doubled(a + b, mods, perms) == Doubled(a, mods, perms) + Doubled(b, mods, perms)
    decreases |a|
  {
    if |a| == 0 {
      assert a + b == b;
    } else {
      assert (a + b)[0] == a[0] && (a + b)[1..] == a[1..] + b;
      DoubledAppend(a[1..], b, mods, perms);
    }
  }

  lemma {:induction false} DoubledSplit(firsts: seq<string>, mods: seq<string>, perms: seq<seq<string>>, a: nat)
    requires a < |firsts|
    ensures Doubled(firsts, mods, perms)
         == Doubled(firsts[..a], mods, perms) + (Around(firsts[a], mods, perms) + Doubled(firsts[a + 1..], mods, perms))
  {
    DoubledAppend(firsts[..a], firsts[a..], mods, perms);
    assert firsts[..a] + firsts[a..] == firsts;
    assert firsts[a..][0] == firsts[a] && firsts[a..][1..] == firsts[a + 1..];
  }

  /** Phase 4 by position, one first modifier at a time: the candidates of `firsts[a]`
      follow those of the earlier first modifiers (and within them, `AroundAt` places
      each second modifier). */
  lemma {:induction false} DoubledAt(firsts: seq<string>, mods: seq<string>, perms: seq<seq<string>>, a: nat, y: nat)
    requires a < |firsts| && y < |Around(firsts[a], mods, perms)|
    ensures |Doubled(firsts[..a], mods, perms)| + y < |Doubled(firsts, mods, perms)|
    ensures Doubled(firsts, mods, perms)[|Doubled(firsts[..a], mods, perms)| + y] == Around(firsts[a], mods, perms)[y]
  {
    DoubledSplit(firsts, mods, perms, a);
    BlockAt(Doubled(firsts, mods, perms), Doubled(firsts[..a], mods, perms), Around(firsts[a], mods, perms),
            Doubled(firsts[a + 1..], mods, perms), y);
  }

  // ---------------------------------------------------------------------------
  // Skipping repeats and stopping early

  /** The reference order: `names` followed by the candidates not seen before, each
      once, in the order they come. */
  function Dedup(cands: seq<string>, names: seq<string>): (d: seq<string>)
    ensures |names| <= |d| && d[..|names|] == names
    ensures Distinct(names) ==> Distinct(d)
    ensures forall k :: 0 <= k < |cands| ==> cands[k] in d
    ensures forall x :: x in d ==> x in names || x in cands
    decreases |cands|
  {
    if |cands| == 0 then names
    else if cands[0] in names then Dedup(cands[1..], names)
    else
      var d := Dedup(cands[1..], names + [cands[0]]);
      assert d[|names|] == (names + [cands[0]])[|names|];
      d
  }

  /** The reference order keeps the order of first occurrence: after `names` come the
      candidates at the positions where a name occurs for the first time and is not in
      `names`, at increasing positions. */
  lemma {:induction false} DedupInOrder(cands: seq<string>, names: seq<string>)
    ensures exists idx :: SelectsAt(idx, FirstNew(cands, names), cands, Dedup(cands, names)[|names|..])
    decreases |cands|
  {
    if |cands| == 0 {
      assert Dedup(cands, names)[|names|..] == [];
      SelectsNothing(FirstNew(cands, names), cands);
    } else {
      var names' := if cands[0] in names then names else names + [cands[0]];
      DedupInOrder(cands[1..], names');
      DedupOrderStep(cands, names, names', Dedup(cands, names));
    }
  }

  /** Position `k` of `cands` is the first occurrence of a name that is not in `names`. */
  function FirstNew(cands: seq<string>, names: seq<string>): (r: seq<bool>)
    ensures |r| == |cands|
    ensures forall k :: 0 <= k < |cands| ==> (r[k] <==> cands[k] !in names && cands[k] !in cands[..k])
  {
    seq(|cands|, k requires 0 <= k < |cands| => cands[k] !in names && cands[k] !in cands[..k])
  }

  /** Past the first candidate, the first occurrences are those of the tail, counted
      against the names with the first candidate added when it was new. */
  lemma FirstNewTail(cands: seq<string>, names: seq<string>, names': seq<string>)
    requires |cands| > 0
    requires names' == if cands[0] in names then names else names + [cands[0]]
    ensures FirstNew(cands, names)[1..] == FirstNew(cands[1..], names')
    ensures FirstNew(cands, names)[0] <==> cands[0] !in names
  {
    var a := FirstNew(cands, names)[1..];
    var b := FirstNew(cands[1..], names');
    forall k | 0 <= k < |b| ensures a[k] == b[k] {
      var c := cands[k + 1];
      assert cands[..k + 1] == [cands[0]] + cands[1..][..k];
      assert c in cands[..k + 1] <==> c == cands[0] || c in cands[1..][..k];
      assert c in names' <==> c in names || (cands[0] !in names && c == cands[0]);
    }
  }

  /** One step of the reference order: the new names of the tail, after the first
      candidate when it is new, are the new names of the whole list in order. */
  lemma DedupOrderStep(cands: seq<string>, names: seq<string>, names': seq<string>, d: seq<string>)
    requires |cands| > 0
    requires names' == if cands[0] in names then names else names + [cands[0]]
    requires |names'| <= |d| && d[..|names'|] == names'
    requires exists idx :: SelectsAt(idx, FirstNew(cands[1..], names'), cands[1..], d[|names'|..])
    ensures exists idx :: SelectsAt(idx, FirstNew(cands, names), cands, d[|names|..])
  {
    FirstNewTail(cands, names, names');
    var keep := FirstNew(cands, names);
    if cands[0] !in names {
      assert d[|names|] == names'[|names|];
      assert d[|names|..] == [cands[0]] + d[|names'|..];
    }
    SelectStep(keep, cands, d[|names'|..], d[|names|..]);
  }

  /** Phases 1 to 4 of `generate`: each candidate not yet emitted is appended, and the
      scan returns right after the append that brings the list to `count`. */
  function Scan(cands: seq<string>, count: int, names: seq<string>): (r: seq<string>)
    ensures |names| <= |r| && r[..|names|] == names
    ensures Distinct(names) ==> Distinct(r)
    ensures forall x :: x in r ==> x in names || x in cands
    decreases |cands|
  {
    if |cands| == 0 then names
    else if cands[0] in names then Scan(cands[1..], count, names)
    else if |names| + 1 >= count then names + [cands[0]]
    else Scan(cands[1..], count, names + [cands[0]])
  }

  /** The scan returns the first `max(count, |names| + 1)` entries of the reference
      order (all of them when there are fewer): at least one new name is always added
      when one exists, since the count is only checked after an append. */
  lemma {:induction false} ScanIsPrefixOfDedup(cands: seq<string>, count: int, names: seq<string>)
    ensures var d := Dedup(cands, names);
            Scan(cands, count, names) == d[..Min(Max(count, |names| + 1), |d|)]
    decreases |cands|
  {
    if |cands| > 0 {
      if cands[0] in names {
        ScanIsPrefixOfDedup(cands[1..], count, names);
      } else if |names| + 1 >= count {
        var d := Dedup(cands[1..], names + [cands[0]]);
        assert d[..|names| + 1] == names + [cands[0]];
      } else {
        ScanIsPrefixOfDedup(cands[1..], count, names + [cands[0]]);
      }
    }
  }

  // ---------------------------------------------------------------------------
  // Phase 5: numbered fallback names

  /** `f"{stem}_{k}"`. */
  function Numbered(stem: string, k: nat): (name: string)
    ensures |name| > |stem| + 1 && name[..|stem|] == stem && name[|stem|] == '_'
    ensures forall i :: |stem| < i < |name| ==> IsDigit(name[i])
    ensures Parse(name[|stem| + 1..]) == k
  {
    var name := stem + "_" + Show(k);
    assert name[|stem| + 1..] == Show(k);
    ParseShow(k);
    name
  }

  lemma NumberedInjective(stem: string, a: nat, b: nat)
    ensures Numbered(stem, a) == Numbered(stem, b) ==> a == b
  {
    if Numbered(stem, a) == Numbered(stem, b) {
      var n := |stem| + 1;
      assert Numbered(stem, a)[n..] == Show(a);
      assert Numbered(stem, b)[n..] == Show(b);
      ShowInjective(a, b);
    }
  }

  /** `s` is a fallback name whose counter is at least `c`. */
  ghost predicate NumberedFrom(stem: string, s: string, c: nat) {
    exists k: nat :: k >= c && s == Numbered(stem, k)
  }

  /** Positions of `names` holding fallback names the counter has yet to reach; at most
      that many counter values can collide, which bounds the fallback loop. */
  ghost function Pending(stem: string, names: seq<string>, c: nat): set<nat> {
    set i: nat | i < |names| && NumberedFrom(stem, names[i], c)
  }

  lemma PendingShrinks(stem: string, names: seq<string>, c: nat)
    requires Numbered(stem, c) in names
    ensures |Pending(stem, names, c + 1)| < |Pending(stem, names, c)|
  {
    var j :| 0 <= j < |names| && names[j] == Numbered(stem, c);
    assert j in Pending(stem, names, c);
    assert j !in Pending(stem, names, c + 1);
    SubsetSmaller(Pending(stem, names, c + 1), Pending(stem, names, c), j);
  }

  lemma SubsetSmaller(a: set<nat>, b: set<nat>, j: nat)
    requires a <= b && j in b && j !in a
    ensures |a| < |b|
  {
    assert b == a + (b - a);
    assert j in b - a;
  }

  /** The fallback loop: while fewer than `count` names are emitted, try the counter
      value, skip it if taken, and move on. */
  function Fallback(stem: string, count: int, names: seq<string>, c: nat): (r: seq<string>)
    ensures |names| >= count ==> r == names
    ensures |names| < count ==> |r| == count
    ensures |names| <= |r| && r[..|names|] == names
    ensures Distinct(names) ==> Distinct(r)
    ensures forall i :: |names| <= i < |r| ==> NumberedFrom(stem, r[i], c)
    decreases Max(count - |names|, 0), |Pending(stem, names, c)|
  {
    if |names| >= count then names
    else
      var name := Numbered(stem, c);
      if name in names then
        PendingShrinks(stem, names, c);
        Fallback(stem, count, names, c + 1)
      else
        Fallback(stem, count, names + [name], c + 1)
  }

  /** Reference order for phase 5: the fallback names for counters `c <= k < e` that
      `names` does not already hold, in increasing counter order. */
  function FreeNames(stem: string, names: seq<string>, c: nat, e: nat): seq<string>
    decreases e
  {
    if e <= c then []
    else
      var name := Numbered(stem, e - 1);
      FreeNames(stem, names, c, e - 1) + (if name in names then [] else [name])
  }

  /** Every free name of a counter range is untaken and produced by a counter in it. */
  lemma {:induction false} FreeNamesSound(stem: string, names: seq<string>, c: nat, e: nat, x: string)
    requires x in FreeNames(stem, names, c, e)
    ensures x !in names && exists k: nat :: c <= k < e && x == Numbered(stem, k)
    decreases e
  {
    var name := Numbered(stem, e - 1);
    var before := FreeNames(stem, names, c, e - 1);
    assert FreeNames(stem, names, c, e) == before + (if name in names then [] else [name]);
    if x in before {
      FreeNamesSound(stem, names, c, e - 1, x);
    } else {
      assert x == name;
    }
  }

  /** Every counter of the range whose name is untaken contributes that name. */
  lemma {:induction false} FreeNamesComplete(stem: string, names: seq<string>, c: nat, e: nat, k: nat)
    requires c <= k < e && Numbered(stem, k) !in names
    ensures Numbered(stem, k) in FreeNames(stem, names, c, e)
    decreases e
  {
    var name := Numbered(stem, e - 1);
    var before := FreeNames(stem, names, c, e - 1);
    assert FreeNames(stem, names, c, e) == before + (if name in names then [] else [name]);
    if k < e - 1 {
      FreeNamesComplete(stem, names, c, e - 1, k);
    }
  }

  /** A name is among the free names of a counter range exactly when some counter in
      the range produces it and `names` does not already hold it. */
  lemma FreeNamesContents(stem: string, names: seq<string>, c: nat, e: nat, x: string)
    ensures x in FreeNames(stem, names, c, e) <==>
            x !in names && exists k: nat :: c <= k < e && x == Numbered(stem, k)
  {
    if x in FreeNames(stem, names, c, e) {
      FreeNamesSound(stem, names, c, e, x);
    } else if x !in names && exists k: nat :: c <= k < e && x == Numbered(stem, k) {
      var k: nat :| c <= k < e && x == Numbered(stem, k);
      FreeNamesComplete(stem, names, c, e, k);
    }
  }

  /** A counter outside the range does not produce any of the range's free names. */
  lemma {:induction false} FreeNamesBelow(stem: string, names: seq<string>, c: nat, e: nat, k: nat)
    requires e <= k
    ensures Numbered(stem, k) !in FreeNames(stem, names, c, e)
    decreases e
  {
    if e > c {
      FreeNamesBelow(stem, names, c, e - 1, k);
      NumberedInjective(stem, e - 1, k);
    }
  }

  /** The loop run from counter `c`, after it has already appended the free names of
      counters `c0 <= k < c` to `orig`, ends with the free names of some longer range. */
  lemma {:induction false} FallbackFrom(stem: string, count: int, orig: seq<string>, c0: nat, c: nat)
    requires c0 <= c
    ensures exists e: nat :: e >= c &&
              Fallback(stem, count, orig + FreeNames(stem, orig, c0, c), c) == orig + FreeNames(stem, orig, c0, e)
    decreases Max(count - |orig + FreeNames(stem, orig, c0, c)|, 0),
              |Pending(stem, orig + FreeNames(stem, orig, c0, c), c)|
  {
    var names := orig + FreeNames(stem, orig, c0, c);
    var name := Numbered(stem, c);
    if |names| >= count {
      assert Fallback(stem, count, names, c) == orig + FreeNames(stem, orig, c0, c);
    } else {
      FreeNamesBelow(stem, orig, c0, c, c);
      assert name in names <==> name in orig;
      assert FreeNames(stem, orig, c0, c + 1) == FreeNames(stem, orig, c0, c) + (if name in orig then [] else [name]);
      if name in names {
        PendingShrinks(stem, names, c);
        assert orig + FreeNames(stem, orig, c0, c + 1) == names;
        FallbackFrom(stem, count, orig, c0, c + 1);
      } else {
        assert orig + FreeNames(stem, orig, c0, c + 1) == names + [name];
        FallbackFrom(stem, count, orig, c0, c + 1);
      }
    }
  }

  /** The fallback appends the free names from counter `c` on, in counter order: each
      counter is used unless `names` already holds its name. */
  lemma FallbackInOrder(stem: string, count: int, names: seq<string>, c: nat)
    ensures exists e: nat :: e >= c && Fallback(stem, count, names, c) == names + FreeNames(stem, names, c, e)
  {
    assert names + FreeNames(stem, names, c, c) == names;
    FallbackFrom(stem, count, names, c, c);
  }

  // ---------------------------------------------------------------------------
  // generate and estimate_combinations

  /** `generate(count)`: phases 1 to 4 with early return, then numbered fallback names
      `"-".join(keywords) + "_" + k` for `k = 1, 2, ...`. */
  function Generate(g: Generator, count: int): (names: seq<string>)
    ensures Distinct(names)
    ensures count >= 1 ==> |names| == count
  {
    var early := Scan(Candidates(g), count, []);
    ScanIsPrefixOfDedup(Candidates(g), count, []);
    Fallback(Join(g.baseWords, "-"), count, early, 1)
  }

  /** Asking for no names still gives the first candidate, the keywords joined with
      `-`, since the count is only checked after an append. */
  lemma GenerateNoneAsked(g: Generator, count: int)
    requires count <= 0
    ensures Generate(g, count) == [Join(g.baseWords, "-")]
  {
    FirstCandidate(g);
    ScanNoneAsked(Candidates(g), count);
  }

  /** With nothing asked for, the scan stops after its first append. */
  lemma ScanNoneAsked(cands: seq<string>, count: int)
    requires |cands| >= 1 && count <= 0
    ensures Scan(cands, count, []) == [cands[0]]
  {
  }

  /** The very first candidate is the keywords in their given order joined with `-`. */
  lemma FirstCandidate(g: Generator)
    ensures |Candidates(g)| >= 1 && Candidates(g)[0] == Join(g.baseWords, "-")
  {
    PermsStartWithIdentity(g.baseWords);
    PhaseOneAt(g, 0);
  }

  /** The output follows the reference order: when phases 1 to 4 offer enough distinct
      names it is exactly their first `max(count, 1)`; otherwise it is all of them
      followed by the numbered names `"-".join(keywords) + "_" + k` for `k = 1, 2, ...`
      in counter order, skipping only names phases 1 to 4 already produced. */
  lemma {:induction false} GenerateFollowsEnumeration(g: Generator, count: int)
    ensures var d := Dedup(Candidates(g), []);
            var names := Generate(g, count);
            && (Max(count, 1) <= |d| ==> names == d[..Max(count, 1)])
            && (Max(count, 1) > |d| ==>
                  && |d| <= |names| && names[..|d|] == d
                  && (forall i :: |d| <= i < |names| ==> NumberedFrom(Join(g.baseWords, "-"), names[i], 1))
                  && exists e: nat :: e >= 1 && names == d + FreeNames(Join(g.baseWords, "-"), d, 1, e))
  {
    var cands := Candidates(g);
    ScanIsPrefixOfDedup(cands, count, []);
    var early := Scan(cands, count, []);
    FallbackInOrder(Join(g.baseWords, "-"), count, early, 1);
  }

  /** The phase-1 candidates come first, and for each ordering of the keywords the
      `-` join comes right before the `_` join. */
  lemma PhaseOneFirst(g: Generator)
    ensures var perms := Perms(g.baseWords);
            forall i :: 0 <= i < |perms| ==>
              && Candidates(g)[2 * i] == Join(perms[i], "-")
              && Candidates(g)[2 * i + 1] == Join(perms[i], "_")
  {
    var perms := Perms(g.baseWords);
    forall i | 0 <= i < |perms|
      ensures Candidates(g)[2 * i] == Join(perms[i], "-")
      ensures Candidates(g)[2 * i + 1] == Join(perms[i], "_")
    {
      PhaseOneAt(g, i);
    }
  }

  lemma PhaseOneAt(g: Generator, i: nat)
    requires i < |Perms(g.baseWords)|
    ensures 2 * i + 1 < |Candidates(g)|
    ensures Candidates(g)[2 * i] == Join(Perms(g.baseWords)[i], "-")
    ensures Candidates(g)[2 * i + 1] == Join(Perms(g.baseWords)[i], "_")
  {
    var perms := Perms(g.baseWords);
    VariantsAt(perms, [], [], i);
    assert [] + perms[i] + [] == perms[i];
    assert Plan(g)[2 * i] == Variants(perms, [], [])[2 * i];
    assert Plan(g)[2 * i + 1] == Variants(perms, [], [])[2 * i + 1];
  }

  /** `estimate_combinations(n)`: the orderings times the two separators, with no
      modifier, a prefix, a suffix, or an ordered pair of the 31 modifiers. */
  function EstimateCombinations(wordCount: nat): (e: nat)
    ensures e == 1986 * Factorial(wordCount)
  {
    var base := Factorial(wordCount) * 2;
    var m := |Vocabulary|;
    VocabularyFacts();
    base + base * m + base * m + base * m * (m - 1)
  }

  /** The estimate grows with the number of keywords, strictly from one keyword on;
      zero and one keyword get the same estimate since `0! == 1!`. */
  lemma EstimateMonotone(n: nat)
    ensures EstimateCombinations(0) == EstimateCombinations(1)
    ensures n >= 1 ==> EstimateCombinations(n) < EstimateCombinations(n + 1)
  {
    assert Factorial(n + 1) == (n + 1) * Factorial(n);
  }

  lemma {:induction false} AroundCountAbsent(first: string, mods: seq<string>, perms: seq<seq<string>>)
    requires first !in mods
    ensures |Around(first, mods, perms)| == |mods| * (2 * |perms|)
    decreases |mods|
  {
    if |mods| > 0 {
      var k := 2 * |perms|;
      AroundCountAbsent(first, mods[1..], perms);
      assert |Around(first, mods, perms)| == k + (|mods| - 1) * k;
      OneMoreCopy(|mods|, k);
    }
  }

  /** A modifier never pairs with itself, so among distinct modifiers each first one
      gets all the others. */
  lemma {:induction false} AroundCount(first: string, mods: seq<string>, perms: seq<seq<string>>)
    requires Distinct(mods) && first in mods
    ensures |Around(first, mods, perms)| == (|mods| - 1) * (2 * |perms|)
    decreases |mods|
  {
    var rest := mods[1..];
    var k := 2 * |perms|;
    DistinctTail(mods);
    if mods[0] == first {
      AroundCountAbsent(first, rest, perms);
    } else {
      AroundCount(first, rest, perms);
      assert |Around(first, mods, perms)| == k + (|rest| - 1) * k;
      OneMoreCopy(|rest|, k);
    }
  }

  lemma {:induction false} DoubledCount(firsts: seq<string>, mods: seq<string>, perms: seq<seq<string>>)
    requires Distinct(mods) && forall k :: 0 <= k < |firsts| ==> firsts[k] in mods
    ensures |Doubled(firsts, mods, perms)| == |firsts| * ((|mods| - 1) * (2 * |perms|))
    decreases |firsts|
  {
    if |firsts| > 0 {
      var k := (|mods| - 1) * (2 * |perms|);
      AroundCount(firsts[0], mods, perms);
      DoubledCount(firsts[1..], mods, perms);
      assert |Doubled(firsts, mods, perms)|
          == |Around(firsts[0], mods, perms)| + |Doubled(firsts[1..], mods, perms)|;
      OneMoreCopy(|firsts|, k);
    }
  }

  /** Phases 1 to 4 try `2 * n! * (1 + 2m + m(m - 1))` candidates for `n` keywords and
      `m` modifiers. */
  lemma CandidatesCount(g: Generator)
    requires Distinct(g.modifiers)
    ensures var p := Factorial(|g.baseWords|);
            var m := |g.modifiers|;
            |Candidates(g)| == 2 * p + 2 * p * m + 2 * p * m + 2 * p * m * (m - 1)
  {
    var perms := Perms(g.baseWords);
    var p := Factorial(|g.baseWords|);
    var m := |g.modifiers|;
    PermsCount(g.baseWords);
    var k := 2 * p;
    assert |perms| == p;
    var v1 := Variants(perms, [], []);
    var v2 := Prefixed(g.modifiers, perms);
    var v3 := Suffixed(g.modifiers, perms);
    var v4 := Doubled(g.modifiers, g.modifiers, perms);
    DoubledCount(g.modifiers, g.modifiers, perms);
    assert |v1| == k && |v2| == m * k && |v3| == m * k && |v4| == m * ((m - 1) * k);
    assert Plan(g) == v1 + v2 + v3 + v4;
    CountArithmetic(p, m);
  }

  lemma CountArithmetic(p: int, m: int)
    ensures var k := 2 * p;
            k + m * k + m * k + m * ((m - 1) * k) == 2 * p + 2 * p * m + 2 * p * m + 2 * p * m * (m - 1)
  {
    var k := 2 * p;
    assert m * k == 2 * p * m;
    assert m * ((m - 1) * k) == 2 * p * m * (m - 1);
  }

  /** The estimate counts the candidates of phases 1 to 4 exactly when no keyword is a
      modifier word; otherwise it overcounts. Repeated names are counted either way. */
  lemma EstimateCountsCandidates(words: seq<string>)
    ensures var g := New(words);
            && |Candidates(g)| <= EstimateCombinations(|g.baseWords|)
            && ((forall k :: 0 <= k < |g.baseWords| ==> g.baseWords[k] !in Vocabulary) ==>
                  |Candidates(g)| == EstimateCombinations(|g.baseWords|))
  {
    var g := New(words);
    CandidatesCount(g);
    EstimateArithmetic(Factorial(|g.baseWords|), |g.modifiers|);
  }

  lemma EstimateArithmetic(p: nat, m: nat)
    requires m <= 31
    ensures 2 * p + 2 * p * m + 2 * p * m + 2 * p * m * (m - 1) <= 1986 * p
    ensures m == 31 ==> 2 * p + 2 * p * m + 2 * p * m + 2 * p * m * (m - 1) == 1986 * p
  {
    assert 2 * p + 2 * p * m + 2 * p * m + 2 * p * m * (m - 1) == 2 * p * (1 + m + m * m);
    assert m * m <= 31 * 31 by {
      MulLeft(m, m, 31);
      MulLeft(31, m, 31);
    }
    MulLeft(2 * p, 1 + m + m * m, 993);
  }

  lemma MulLeft(a: nat, b: int, c: int)
    requires b <= c
    ensures a * b <= a * c
  {
    assert a * c - a * b == a * (c - b);
  }

  /** Candidates that are new and pairwise different come out unchanged, in order, at
      the front of the reference order. */
  lemma {:induction false} DedupFreshPrefix(cands: seq<string>, names: seq<string>, n: nat)
    requires n <= |cands| && Distinct(cands[..n])
    requires forall k :: 0 <= k < n ==> cands[k] !in names
    ensures |Dedup(cands, names)| >= |names| + n
    ensures Dedup(cands, names)[..|names| + n] == names + cands[..n]
    decreases n
  {
    if n > 0 {
      var names' := names + [cands[0]];
      var rest := cands[1..];
      FreshTail(cands, names, n);
      var d := Dedup(rest, names');
      assert Dedup(cands, names) == d;
      DedupFreshPrefix(rest, names', n - 1);
      assert |names'| + (n - 1) == |names| + n;
      AppendFirst(names, cands, n);
    }
  }

  lemma AppendFirst(names: seq<string>, cands: seq<string>, n: nat)
    requires 0 < n <= |cands|
    ensures (names + [cands[0]]) + cands[1..][..n - 1] == names + cands[..n]
  {
    assert cands[..n] == [cands[0]] + cands[1..][..n - 1];
  }

  /** The step of `DedupFreshPrefix`: after taking the first fresh candidate, the next
      `n - 1` are still fresh and pairwise different. */
  lemma FreshTail(cands: seq<string>, names: seq<string>, n: nat)
    requires 0 < n <= |cands| && Distinct(cands[..n])
    requires forall k :: 0 <= k < n ==> cands[k] !in names
    ensures cands[0] !in names
    ensures Distinct(cands[1..][..n - 1])
    ensures forall k :: 0 <= k < n - 1 ==> cands[1..][k] !in names + [cands[0]]
  {
    var rest := cands[1..];
    assert cands[0] !in names;
    assert rest[..n - 1] == cands[..n][1..];
    forall k | 0 <= k < n - 1 ensures rest[k] !in names + [cands[0]] {
      assert cands[..n][0] != cands[..n][k + 1];
    }
  }

  /** Two keywords, already clean: the first four candidates are the two orderings,
      each joined with `-` and then `_`. */
  lemma TwoKeywordsPhaseOne(g: Generator, a: string, b: string)
    requires g.baseWords == [a, b]
    ensures |Candidates(g)| >= 4
    ensures Candidates(g)[..4] == [a + "-" + b, a + "_" + b, b + "-" + a, b + "_" + a]
  {
    PermsOfTwo(a, b);
    PhaseOneAt(g, 0);
    PhaseOneAt(g, 1);
    PairJoins(Candidates(g), a, b);
  }

  lemma PairJoins(c: seq<string>, a: string, b: string)
    requires |c| >= 4
    requires c[0] == Join([a, b], "-") && c[1] == Join([a, b], "_")
    requires c[2] == Join([b, a], "-") && c[3] == Join([b, a], "_")
    ensures c[..4] == [a + "-" + b, a + "_" + b, b + "-" + a, b + "_" + a]
  {
    JoinTwo(a, b, "-");
    JoinTwo(a, b, "_");
    JoinTwo(b, a, "-");
    JoinTwo(b, a, "_");
  }

  lemma JoinTwo(a: string, b: string, sep: string)
    ensures Join([a, b], sep) == a + sep + b
  {
    assert [a, b][1..] == [b];
  }

  /** Splitting `a + [c] + b` at `c` gives back the two words when neither contains `c`. */
  lemma SplitPair(a: string, b: string, c: char)
    requires c !in a && c !in b
    ensures Split(a + [c] + b, c) == [a, b]
  {
    assert [a, b][1..] == [b];
    assert Join([a, b], [c]) == a + [c] + b;
    SplitJoin([a, b], c);
  }

  /** Two different keywords free of `-` and `_`: the first four names asked for are the
      phase-1 joins, in order. */
  lemma TwoKeywordsFirstNames(g: Generator, a: string, b: string)
    requires g.baseWords == [a, b] && a != b
    requires '-' !in a && '_' !in a && '-' !in b && '_' !in b
    ensures Generate(g, 4) == [a + "-" + b, a + "_" + b, b + "-" + a, b + "_" + a]
  {
    TwoKeywordsPhaseOne(g, a, b);
    TwoKeywordsDistinct(a, b);
    GenerateFreshPrefix(g, 4);
  }

  /** The four phase-1 names of two different keywords free of `-` and `_` differ. */
  lemma TwoKeywordsDistinct(a: string, b: string)
    requires a != b && '-' !in a && '_' !in a && '-' !in b && '_' !in b
    ensures Distinct([a + "-" + b, a + "_" + b, b + "-" + a, b + "_" + a])
  {
    var first := [a + "-" + b, a + "_" + b, b + "-" + a, b + "_" + a];
    SplitPair(a, b, '-');
    SplitPair(b, a, '-');
    SplitPair(a, b, '_');
    SplitPair(b, a, '_');
    assert '-' in first[0] && '-' in first[2];
    assert '-' !in first[1] && '-' !in first[3];
  }

  /** When the first `n` candidates are pairwise different, asking for `n` names gives
      exactly them. */
  lemma GenerateFreshPrefix(g: Generator, n: nat)
    requires 1 <= n <= |Candidates(g)| && Distinct(Candidates(g)[..n])
    ensures Generate(g, n) == Candidates(g)[..n]
  {
    ScanFreshPrefix(Candidates(g), n);
  }

  lemma ScanFreshPrefix(cands: seq<string>, n: nat)
    requires 1 <= n <= |cands| && Distinct(cands[..n])
    ensures Scan(cands, n, []) == cands[..n]
  {
    DedupFreshPrefix(cands, [], n);
    ScanIsPrefixOfDedup(cands, n, []);
  }
}
