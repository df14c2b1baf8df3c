/** The seeded shuffler: the xmur3 string hash produces 32-bit seeds, the
    sfc32 generator turns them into a stream of 32-bit words, and a backward
    Fisher-Yates pass permutes a copy of the input with that stream.
    JavaScript's `Math.imul`, `|0` and `>>>0` all act on the same 32-bit
    pattern, so every word is a `bv32` and `Math.imul` is wrapping `*`. */
module Random {

  /** A seed string as UTF-16 code units (what `charCodeAt` returns). */
  type Seed = seq<bv16>

  const TWO_POW_32: nat := 0x1_0000_0000

  /** `(h << k) | (h >>> (32 - k))`: the rotation the source writes out. */
  function Rotl(h: bv32, k: nat): bv32
    requires 0 < k < 32
  {
    (h << k) | (h >> (32 - k))
  }

  /** The shift-and-or the source writes is the 32-bit rotation, for the two
      amounts it uses (13 in xmur3, 21 in sfc32). */
  lemma RotlIsRotation(h: bv32)
    ensures Rotl(h, 13) == h.RotateLeft(13)
    ensures Rotl(h, 21) == h.RotateLeft(21)
  {
  }

  // ---------------------------------------------------------------- xmur3

  /** The hash state after mixing in every code unit, left to right. */
  function MixChars(h: bv32, s: Seed): bv32
    decreases |s|
  {
    if |s| == 0 then h
    else MixChars(Rotl((h ^ (s[0] as bv32)) * 3432918353, 13), s[1..])
  }

  /** The state `xmur3(str)` closes over: the length-seeded state mixed with
      every character. `str.length` enters the xor as a 32-bit integer. */
  function Xmur3State(s: Seed): bv32
  {
    MixChars(1779033703 ^ ((|s| % TWO_POW_32) as bv32), s)
  }

  /** One call of the generator xmur3 returns: the new state, which is also
      the value handed out. */
  function Xmur3Next(h: bv32): bv32
  {
    var h1 := (h ^ (h >> 16)) * 2246822507;
    var h2 := (h1 ^ (h1 >> 13)) * 3266489909;
    h2 ^ (h2 >> 16)
  }

  /** The first `n` values of the generator started from state `h`. */
  function Xmur3Draws(h: bv32, n: nat): (r: seq<bv32>)
    ensures |r| == n
    ensures n > 0 ==> r[0] == Xmur3Next(h)
    ensures forall k | 0 <= k < n - 1 :: r[k + 1] == Xmur3Next(r[k])
    decreases n
  {
    if n == 0 then []
    else [Xmur3Next(h)] + Xmur3Draws(Xmur3Next(h), n - 1)
  }

  // ---------------------------------------------------------------- sfc32

  /** The four words of the sfc32 generator. */
  datatype Sfc32 = Sfc32(a: bv32, b: bv32, c: bv32, d: bv32)

  /** One call of the sfc32 closure: the next state and the word `t` whose
      quotient by 2^32 is the float the source returns. */
  function Sfc32Next(g: Sfc32): (r: (bv32, Sfc32))
  {
    var t := g.a + g.b;
    var a := g.b ^ (g.b >> 9);
    var b := g.c + (g.c << 3);
    var c := Rotl(g.c, 21);
    var d := g.d + 1;
    var t' := t + d;
    (t', Sfc32(a, b, c + t', d))
  }

  /** `Math.floor(rand() * (i + 1))` with `rand() = t / 2^32`, computed exactly
      on integers: the draw for position `i` is never above `i`. */
  function DrawIndex(t: bv32, i: nat): (j: nat)
    ensures j <= i
  {
    DrawBound(t as nat, i);
    (t as nat) * (i + 1) / TWO_POW_32
  }

  lemma DrawBound(t: nat, i: nat)
    requires t < TWO_POW_32
    ensures t * (i + 1) / TWO_POW_32 <= i
  {
    assert t * (i + 1) < TWO_POW_32 * (i + 1) by {
      assert t * (i + 1) <= (TWO_POW_32 - 1) * (i + 1);
    }
  }

  // ---------------------------------------------------------- Fisher-Yates

  /** The destructuring swap `[a[i], a[j]] = [a[j], a[i]]`. */
  function Swap<T>(a: seq<T>, i: nat, j: nat): (r: seq<T>)
    requires i < |a| && j < |a|
    ensures |r| == |a| && r[i] == a[j] && r[j] == a[i]
    ensures forall k | 0 <= k < |a| && k != i && k != j :: r[k] == a[k]
    ensures multiset(r) == multiset(a)
  {
    a[i := a[j]][j := a[i]]
  }

  /** The first `n` words the generator hands out, in call order. */
  function Sfc32Stream(g: Sfc32, n: nat): (r: seq<bv32>)
    ensures |r| == n
    ensures n > 0 ==> r[0] == Sfc32Next(g).0
    decreases n
  {
    if n == 0 then [] else [Sfc32Next(g).0] + Sfc32Stream(Sfc32Next(g).1, n - 1)
  }

  /** The loop body for positions `i, i-1, ..., 1`; position `i` consumes the
      first remaining generator word. */
  function FisherYatesFrom<T>(a: seq<T>, i: nat, words: seq<bv32>): (r: seq<T>)
    requires i < |a| && i <= |words|
    ensures |r| == |a|
    ensures multiset(r) == multiset(a)
    decreases i
  {
    if i == 0 then a
    else FisherYatesFrom(Swap(a, i, DrawIndex(words[0], i)), i - 1, words[1..])
  }

  /** `shuffleFisherYates` fed with the words of one generator run: the loop
      runs from the last index down to 1, so it does nothing to a sequence of
      length 0 or 1. */
  function FisherYates<T>(a: seq<T>, g: Sfc32): (r: seq<T>)
    ensures |r| == |a|
    ensures multiset(r) == multiset(a)
    ensures |a| <= 1 ==> r == a
  {
    if |a| <= 1 then a else FisherYatesFrom(a, |a| - 1, Sfc32Stream(g, |a| - 1))
  }

  /** The generator `shuffle` builds: sfc32 seeded with four successive xmur3
      draws of the seed string. */
  function SeededGenerator(seed: Seed): (g: Sfc32)
    ensures g.b == Xmur3Next(g.a) && g.c == Xmur3Next(g.b) && g.d == Xmur3Next(g.c)
    ensures g.a == Xmur3Next(Xmur3State(seed))
  {
    var a := Xmur3Next(Xmur3State(seed));
    var b := Xmur3Next(a);
    var c := Xmur3Next(b);
    Sfc32(a, b, c, Xmur3Next(c))
  }

  /** The four seed words are the first four values of one xmur3 generator
      run on the seed string. */
  lemma SeededFromDraws(seed: Seed)
    ensures var w, g := Xmur3Draws(Xmur3State(seed), 4), SeededGenerator(seed);
            g == Sfc32(w[0], w[1], w[2], w[3])
  {
  }

  /** `shuffle(arr, seed)`: a permutation of a copy of `arr`. The argument is a
      value, so it cannot be changed; the result depends only on `arr` and
      `seed`. */
  function Shuffle<T>(arr: seq<T>, seed: Seed): (r: seq<T>)
    ensures |r| == |arr|
    ensures multiset(r) == multiset(arr)
    ensures |arr| <= 1 ==> r == arr
  {
    FisherYates(arr, SeededGenerator(seed))
  }

  /** A permuted sequence holds exactly the same elements. */
  lemma ShuffleKeepsElements<T>(arr: seq<T>, seed: Seed, x: T)
    ensures x in Shuffle(arr, seed) <==> x in arr
  {
    var r := Shuffle(arr, seed);
    assert x in r <==> x in multiset(r);
    assert x in arr <==> x in multiset(arr);
  }
}
