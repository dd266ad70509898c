/**
 * The protein-change notation parser. A notation such as `p.Leu55Arg` is a two-character
 * prefix, a run of three-letter wild-type codes, a decimal position and an equally long
 * run of three-letter mutant codes. The position is found by dropping one character from
 * each end until the middle is a numeral; the number of rounds is the length of each run.
 */
module Notation {
  import opened Options
  import opened Text

  /** One amino-acid substitution: wild-type letter, protein position, mutant letter. */
  datatype Triple = Triple(wt: char, pos: nat, mut: char)

  /** A substitution that keeps the residue; the evaluator skips it. */
  predicate Synonymous(t: Triple) {
    t.wt == t.mut
  }

  /** The strip loop ends when the middle parses as an integer or is blank. */
  predicate Stops(middle: string) {
    IsNumeral(middle) || IsBlank(middle)
  }

  /** What is left of `core` after `t` rounds of dropping one character from each end. */
  function Middle(core: string, t: nat): string {
    if 2 * t < |core| then core[t..|core| - t] else []
  }

  /** The loop's exit state: the round count `i` and the middle `pos` at exit. */
  datatype Located = Located(rounds: nat, middle: string)

  /** The strip loop: each round adds one to the count and drops both ends, until `Stops`. */
  function Locate(pos: string, i: nat): (r: Located)
    ensures r.rounds > i
    ensures Stops(r.middle)
    decreases |pos|
  {
    var pos' := DropEnds(pos);
    if Stops(pos') then Located(i + 1, pos') else Locate(pos', i + 1)
  }

  /** Round `u` of the strip loop on `core` would end it. */
  predicate StopsAt(core: string, u: nat) {
    Stops(Middle(core, u))
  }

  lemma DropEndsMiddle(core: string, t: nat)
    ensures DropEnds(Middle(core, t)) == Middle(core, t + 1)
  {
  }

  lemma {:induction false} LocateFrom(core: string, t: nat)
    requires forall u :: 1 <= u <= t ==> !StopsAt(core, u)
    ensures Locate(Middle(core, t), t).rounds > t
    ensures Locate(Middle(core, t), t).middle == Middle(core, Locate(Middle(core, t), t).rounds)
    ensures forall u :: 1 <= u < Locate(Middle(core, t), t).rounds ==> !StopsAt(core, u)
    decreases |core| - 2 * t
  {
    var pos := Middle(core, t);
    var next := Middle(core, t + 1);
    DropEndsMiddle(core, t);
    if StopsAt(core, t + 1) {
      assert Locate(pos, t) == Located(t + 1, next);
    } else {
      assert !IsBlank(next);
      assert |next| > 0;
      LocateFrom(core, t + 1);
      assert Locate(pos, t) == Locate(next, t + 1);
    }
  }

  /**
   * The strip loop exits at the first round whose middle is a numeral or blank, and its
   * middle is then the core with that many characters removed from each end.
   */
  lemma LocateFirstStop(core: string)
    ensures Locate(core, 0).rounds >= 1
    ensures Locate(core, 0).middle == Middle(core, Locate(core, 0).rounds)
    ensures StopsAt(core, Locate(core, 0).rounds)
    ensures forall u :: 1 <= u < Locate(core, 0).rounds ==> !StopsAt(core, u)
  {
    assert Middle(core, 0) == core;
    LocateFrom(core, 0);
  }

  /** Round `t` is the loop's exit round and its middle is a numeral. */
  predicate NumeralAt(core: string, t: nat) {
    && t >= 1
    && IsNumeral(Middle(core, t))
    && forall u :: 1 <= u < t ==> !StopsAt(core, u)
  }

  /** Only one round can be the exit round on a numeral, and the loop finds it. */
  lemma LocateUnique(core: string, t: nat)
    requires NumeralAt(core, t)
    ensures Locate(core, 0) == Located(t, Middle(core, t))
  {
    LocateFirstStop(core);
    var r := Locate(core, 0);
    assert StopsAt(core, t);
    assert StopsAt(core, r.rounds);
    assert r.rounds == t;
  }

  /** Reading `core[j:j+3]` and the chunk at the same offset after the numeral, both clamped. */
  function ChunkTriple(core: string, i: nat, width: nat, start: nat, m: nat, letter: string -> char): Triple {
    var off := i + width;
    Triple(letter(Slice(core, 3 * m, 3 * m + 3)),
           start + m,
           letter(Slice(core, off + 3 * m, off + 3 * m + 3)))
  }

  /**
   * The collection loop `while j < i` with `j += 3` and `k += 1`: it yields one triple per
   * started chunk, so `ceil(i / 3)` of them, the `m`-th read at offset `3 * m`.
   */
  function Collect(core: string, i: nat, width: nat, start: nat, j: nat, k: nat, letter: string -> char): (ts: seq<Triple>)
    requires j == 3 * k
    ensures j >= i ==> |ts| == 0
    ensures j < i ==> i <= j + 3 * |ts| < i + 3
    decreases if j < i then i - j else 0
  {
    if j >= i then []
    else [ChunkTriple(core, i, width, start, k, letter)] + Collect(core, i, width, start, j + 3, k + 1, letter)
  }

  lemma {:induction false} CollectAt(core: string, i: nat, width: nat, start: nat, j: nat, k: nat, n: nat, letter: string -> char)
    requires j == 3 * k
    requires n < |Collect(core, i, width, start, j, k, letter)|
    ensures Collect(core, i, width, start, j, k, letter)[n] == ChunkTriple(core, i, width, start, k + n, letter)
    decreases n
  {
    if n > 0 {
      var rest := Collect(core, i, width, start, j + 3, k + 1, letter);
      assert Collect(core, i, width, start, j, k, letter)[n] == rest[n - 1];
      CollectAt(core, i, width, start, j + 3, k + 1, n - 1, letter);
    }
  }

  /** The `n`-th collected triple is the one read at chunk `k + n`. */
  lemma CollectChunks(core: string, i: nat, width: nat, start: nat, j: nat, k: nat, letter: string -> char)
    requires j == 3 * k
    ensures forall n :: 0 <= n < |Collect(core, i, width, start, j, k, letter)| ==>
      Collect(core, i, width, start, j, k, letter)[n] == ChunkTriple(core, i, width, start, k + n, letter)
  {
    forall n | 0 <= n < |Collect(core, i, width, start, j, k, letter)|
      ensures Collect(core, i, width, start, j, k, letter)[n] == ChunkTriple(core, i, width, start, k + n, letter)
    {
      CollectAt(core, i, width, start, j, k, n, letter);
    }
  }

  /** `prot[2:]`: the notation without its two-character prefix. */
  function Core(prot: string): string {
    Slice(prot, 2, |prot|)
  }

  /**
   * The whole parse of one notation: `None` when it holds an underscore or when the strip
   * loop ends on a blank middle; otherwise every triple, synonymous ones included.
   */
  function Parse(prot: string, letter: string -> char): (r: Option<seq<Triple>>)
    ensures '_' in prot ==> r.None?
    ensures r.Some? ==> |r.value| >= 1
    ensures r.Some? ==> forall n :: 0 <= n < |r.value| ==> r.value[n].pos == r.value[0].pos + n
  {
    if '_' in prot then None
    else
      var core := Core(prot);
      var loc := Locate(core, 0);
      if IsBlank(loc.middle) then None
      else
        var start := NumeralValue(loc.middle);
        CollectChunks(core, loc.rounds, |loc.middle|, start, 0, 0, letter);
        Some(Collect(core, loc.rounds, |loc.middle|, start, 0, 0, letter))
  }

  /** The triples the parser yields when round `t` of `core` is the numeral. */
  function TriplesAt(core: string, t: nat, letter: string -> char): seq<Triple>
    requires NumeralAt(core, t)
  {
    seq((t + 2) / 3, m requires 0 <= m < (t + 2) / 3 => ChunkTriple(core, t, |Middle(core, t)|, NumeralValue(Middle(core, t)), m, letter))
  }

  /** The chunk loop, started at the numeral of round `t`, yields exactly `TriplesAt(core, t)`. */
  lemma CollectTriplesAt(core: string, t: nat, letter: string -> char)
    requires NumeralAt(core, t)
    ensures Collect(core, t, |Middle(core, t)|, NumeralValue(Middle(core, t)), 0, 0, letter) == TriplesAt(core, t, letter)
  {
    CollectChunks(core, t, |Middle(core, t)|, NumeralValue(Middle(core, t)), 0, 0, letter);
  }

  /** When the strip loop first stops on a numeral at round `t`, the parse is the triples read around it. */
  lemma ParseAt(prot: string, t: nat, letter: string -> char)
    requires '_' !in prot
    requires NumeralAt(Core(prot), t)
    ensures Parse(prot, letter) == Some(TriplesAt(Core(prot), t, letter))
  {
    LocateUnique(Core(prot), t);
    NumeralNotBlank(Middle(Core(prot), t));
    CollectTriplesAt(Core(prot), t, letter);
  }

  /**
   * The parser succeeds exactly when the notation has no underscore and the strip loop
   * first stops on a numeral; it then yields `ceil(t / 3)` triples read around that numeral.
   */
  lemma ParseCharacterized(prot: string, letter: string -> char)
    ensures Parse(prot, letter).Some? <==> '_' !in prot && exists t: nat :: NumeralAt(Core(prot), t)
    ensures forall t: nat :: '_' !in prot && NumeralAt(Core(prot), t) ==> Parse(prot, letter) == Some(TriplesAt(Core(prot), t, letter))
  {
    var core := Core(prot);
    var loc := Locate(core, 0);
    LocateFirstStop(core);
    if Parse(prot, letter).Some? {
      assert IsNumeral(loc.middle);
      assert NumeralAt(core, loc.rounds);
    }
    forall t: nat | '_' !in prot && NumeralAt(core, t)
      ensures Parse(prot, letter) == Some(TriplesAt(core, t, letter))
    {
      ParseAt(prot, t, letter);
    }
  }

  /** Every character is an ASCII letter, as in three-letter amino-acid codes. */
  predicate AllLetters(s: string) {
    forall n :: 0 <= n < |s| ==> IsLetter(s[n])
  }

  /** The substitutions a well-formed notation denotes: the `m`-th codes of both runs, at position `start + m`. */
  function Denoted(wts: string, start: nat, muts: string, letter: string -> char): (ts: seq<Triple>)
    requires |wts| == |muts| && |wts| % 3 == 0
    ensures |ts| == |wts| / 3
  {
    seq(|wts| / 3, m requires 0 <= m < |wts| / 3 =>
      Triple(letter(wts[3 * m..3 * m + 3]), start + m, letter(muts[3 * m..3 * m + 3])))
  }

  lemma WellFormedStops(wts: string, digits: string, muts: string)
    requires |wts| == |muts| && |wts| % 3 == 0 && |wts| > 0
    requires AllLetters(wts) && AllLetters(muts) && IsNumeral(digits)
    ensures NumeralAt(wts + digits + muts, |wts|)
    ensures Middle(wts + digits + muts, |wts|) == digits
  {
    var core := wts + digits + muts;
    assert core[|wts|..|core| - |wts|] == digits;
    forall u | 1 <= u < |wts|
      ensures !StopsAt(core, u)
    {
      var mid := Middle(core, u);
      assert mid[0] == wts[u];
      assert IsLetter(wts[u]);
    }
  }

  lemma WellFormedHasNoUnderscore(prefix: string, wts: string, digits: string, muts: string)
    requires '_' !in prefix
    requires AllLetters(wts) && AllLetters(muts) && IsNumeral(digits)
    ensures '_' !in prefix + wts + digits + muts
  {
    var prot := prefix + wts + digits + muts;
    forall n | 0 <= n < |prot|
      ensures prot[n] != '_'
    {
      if n < |prefix| {
        assert prot[n] == prefix[n];
      } else if n < |prefix| + |wts| {
        assert prot[n] == wts[n - |prefix|];
        assert IsLetter(wts[n - |prefix|]);
      } else if n < |prefix| + |wts| + |digits| {
        assert prot[n] == digits[n - |prefix| - |wts|];
        assert IsDigit(digits[n - |prefix| - |wts|]);
      } else {
        assert prot[n] == muts[n - |prefix| - |wts| - |digits|];
        assert IsLetter(muts[n - |prefix| - |wts| - |digits|]);
      }
    }
  }

  lemma WellFormedTriples(wts: string, digits: string, muts: string, letter: string -> char)
    requires |wts| == |muts| && |wts| % 3 == 0 && |wts| > 0
    requires AllLetters(wts) && AllLetters(muts) && IsNumeral(digits)
    ensures NumeralAt(wts + digits + muts, |wts|)
    ensures TriplesAt(wts + digits + muts, |wts|, letter) == Denoted(wts, NumeralValue(digits), muts, letter)
  {
    var core := wts + digits + muts;
    WellFormedStops(wts, digits, muts);
    var ts := TriplesAt(core, |wts|, letter);
    var expected := Denoted(wts, NumeralValue(digits), muts, letter);
    assert |ts| == |expected|;
    forall m | 0 <= m < |ts|
      ensures ts[m] == expected[m]
    {
      var off := |wts| + |digits|;
      assert core[3 * m..3 * m + 3] == wts[3 * m..3 * m + 3];
      assert core[off + 3 * m..off + 3 * m + 3] == muts[3 * m..3 * m + 3];
    }
  }

  /**
   * A notation made of a two-character prefix, `3k` letters, a numeral and `3k` letters
   * parses to `k` substitutions at consecutive positions from the numeral's value.
   */
  lemma ParseWellFormed(prefix: string, wts: string, digits: string, muts: string, letter: string -> char)
    requires |prefix| == 2 && '_' !in prefix
    requires |wts| == |muts| && |wts| % 3 == 0 && |wts| > 0
    requires AllLetters(wts) && AllLetters(muts) && IsNumeral(digits)
    ensures Parse(prefix + wts + digits + muts, letter) == Some(Denoted(wts, NumeralValue(digits), muts, letter))
  {
    var prot := prefix + wts + digits + muts;
    var core := wts + digits + muts;
    assert prot == prefix + core;
    SliceInBounds(prot, 2, |prot|);
    assert prot[2..] == core;
    WellFormedHasNoUnderscore(prefix, wts, digits, muts);
    WellFormedTriples(wts, digits, muts, letter);
    assert Core(prot) == core;
    ParseAt(prot, |wts|, letter);
  }

  /** The notation `p.Leu55Arg` is the single substitution Leu to Arg at position 55. */
  lemma ParseSingleExample(letter: string -> char)
    ensures Parse("p.Leu55Arg", letter) == Some([Triple(letter("Leu"), 55, letter("Arg"))])
  {
    var wts, digits, muts := "Leu", "55", "Arg";
    assert "p." + wts + digits + muts == "p.Leu55Arg";
    assert NumeralValue(digits) == 55 by {
      assert digits[..1] == "5";
      assert digits[..1][..0] == "";
    }
    assert AllLetters(wts) && AllLetters(muts);
    assert wts[0..3] == wts && muts[0..3] == muts;
    assert Denoted(wts, 55, muts, letter) == [Triple(letter("Leu"), 55, letter("Arg"))];
    ParseWellFormed("p.", wts, digits, muts, letter);
  }

  /** Three ASCII letters, the shape of an amino-acid code such as `Leu`. */
  predicate IsCode(c: string) {
    |c| == 3 && AllLetters(c)
  }

  function Concat(codes: seq<string>): string
    decreases |codes|
  {
    if |codes| == 0 then "" else codes[0] + Concat(codes[1..])
  }

  lemma {:induction false} ConcatCodes(codes: seq<string>)
    requires forall n :: 0 <= n < |codes| ==> IsCode(codes[n])
    ensures |Concat(codes)| == 3 * |codes|
    ensures AllLetters(Concat(codes))
    ensures forall m :: 0 <= m < |codes| ==> Concat(codes)[3 * m..3 * m + 3] == codes[m]
    decreases |codes|
  {
    if |codes| > 0 {
      ConcatCodes(codes[1..]);
      var rest := Concat(codes[1..]);
      assert Concat(codes) == codes[0] + rest;
      forall m | 0 <= m < |codes|
        ensures Concat(codes)[3 * m..3 * m + 3] == codes[m]
      {
        if m > 0 {
          assert codes[1..][m - 1] == codes[m];
          assert Concat(codes)[3 * m..3 * m + 3] == rest[3 * (m - 1)..3 * (m - 1) + 3];
        }
      }
      forall n | 0 <= n < |Concat(codes)|
        ensures IsLetter(Concat(codes)[n])
      {
        if n < 3 {
          assert Concat(codes)[n] == codes[0][n];
        } else {
          assert Concat(codes)[n] == rest[n - 3];
        }
      }
    }
  }

  /** Writes substitutions back as a notation: prefix, wild-type codes, start position, mutant codes. */
  function Encode(prefix: string, wts: seq<string>, start: nat, muts: seq<string>): string {
    prefix + Concat(wts) + ShowNat(start) + Concat(muts)
  }

  /** The substitutions named by two runs of codes from position `start`. */
  function Named(wts: seq<string>, start: nat, muts: seq<string>, letter: string -> char): seq<Triple>
    requires |wts| == |muts|
  {
    seq(|wts|, m requires 0 <= m < |wts| => Triple(letter(wts[m]), start + m, letter(muts[m])))
  }

  lemma DenotedCodes(wts: seq<string>, start: nat, muts: seq<string>, letter: string -> char)
    requires |wts| == |muts|
    requires forall n :: 0 <= n < |wts| ==> IsCode(wts[n]) && IsCode(muts[n])
    ensures |Concat(wts)| == |Concat(muts)| == 3 * |wts|
    ensures Denoted(Concat(wts), start, Concat(muts), letter) == Named(wts, start, muts, letter)
  {
    ConcatCodes(wts);
    ConcatCodes(muts);
    var ts := Denoted(Concat(wts), start, Concat(muts), letter);
    var us := Named(wts, start, muts, letter);
    assert |ts| == |us|;
    forall m | 0 <= m < |wts|
      ensures ts[m] == us[m]
    {
    }
  }

  /**
   * Re-encoding a run of substitutions and parsing it again gives the same substitutions:
   * the `m`-th codes of both runs, at position `start + m`.
   */
  lemma ParseEncode(prefix: string, wts: seq<string>, start: nat, muts: seq<string>, letter: string -> char)
    requires |prefix| == 2 && '_' !in prefix
    requires |wts| == |muts| && |wts| > 0
    requires forall n :: 0 <= n < |wts| ==> IsCode(wts[n]) && IsCode(muts[n])
    ensures Parse(Encode(prefix, wts, start, muts), letter) == Some(Named(wts, start, muts, letter))
  {
    ConcatCodes(wts);
    ConcatCodes(muts);
    DenotedCodes(wts, start, muts, letter);
    ParseWellFormed(prefix, Concat(wts), ShowNat(start), Concat(muts), letter);
  }
}
