/** The incremental Internet checksum (eBPF_app/eBPF_measure/ebpf_measure_user.c). */
module Checksum {
  newtype Word = x: int | 0 <= x < 0x10000

  /** ~x, truncated to 16 bits. */
  function Not(x: Word): (y: Word) {
    0xffff - x
  }

  /** csum16_add: the 16-bit sum, with a carry noticed by the sum being smaller
      than the addend. */
  method Csum16Add(csum: Word, addend: Word) returns (r: Word)
    ensures r == Add(csum, addend)
  {
    var res := ((csum as int + addend as int) % 0x10000) as Word;
    r := ((res as int + if res < addend then 1 else 0) % 0x10000) as Word;
  }

  method Csum16Sub(csum: Word, addend: Word) returns (r: Word)
    ensures r == Add(csum, Not(addend))
  {
    r := Csum16Add(csum, Not(addend));
  }

  /** csum_replace2: eqn. 3 of section 3 of RFC 1624, through the pointer to the checksum. */
  method CsumReplace2(header: array<Word>, sum: nat, from: Word, to: Word)
    requires sum < header.Length
    modifies header
    ensures header[..] == old(header[..])[sum := Not(Add(Add(Not(old(header[sum])), Not(from)), to))]
  {
    var r := Csum16Sub(Not(header[sum]), from);
    r := Csum16Add(r, to);
    header[sum] := Not(r);
  }

  /** The number modulo 0xffff, with 0 itself kept apart from its multiples. */
  function Folded(n: nat): (w: Word)
    ensures w == 0 <==> n == 0
    ensures w as int % 0xffff == n % 0xffff
  {
    if n == 0 then 0 else ((n - 1) % 0xffff + 1) as Word
  }

  lemma FoldedEqual(m: nat, n: nat)
    requires m % 0xffff == n % 0xffff && (m == 0 <==> n == 0)
    ensures Folded(m) == Folded(n)
  {
  }

  /** One's complement addition: the carry comes back in at the low end. */
  function Add(a: Word, b: Word): (c: Word) {
    Folded(a as nat + b as nat)
  }

  /** Folding early changes nothing. */
  lemma AddFolded(n: nat, b: Word)
    ensures Add(Folded(n), b) == Folded(n + b as nat)
  {
    hide Folded;
    var f := Folded(n) as nat;
    SameRemainder(f, n, b as nat);
    FoldedEqual(f + b as nat, n + b as nat);
  }

  lemma SameRemainder(m: nat, n: nat, b: nat)
    requires m % 0xffff == n % 0xffff
    ensures (m + b) % 0xffff == (n + b) % 0xffff
  {
  }

  /** Once past zero the numbers go round. */
  lemma FoldedShift(n: nat)
    ensures Folded(n + 0xffff) == if n == 0 then 0xffff else Folded(n)
  {
  }

  /** The one's complement sum of section 1 of RFC 1071, word after word. */
  function Sum(words: seq<Word>): (s: Word) {
    if words == [] then 0 else Add(Sum(words[..|words| - 1]), words[|words| - 1])
  }

  function Total(words: seq<Word>): (t: nat) {
    if words == [] then 0 else Total(words[..|words| - 1]) + words[|words| - 1] as nat
  }

  ghost predicate AllZero(words: seq<Word>) {
    forall i :: 0 <= i < |words| ==> words[i] == 0
  }

  lemma {:induction false} TotalZero(words: seq<Word>)
    ensures Total(words) == 0 <==> AllZero(words)
  {
    if words != [] {
      var front := words[..|words| - 1];
      TotalZero(front);
      assert AllZero(words) <==> AllZero(front) && words[|words| - 1] == 0;
    }
  }

  /** Folding at every step or at the end is the same. */
  lemma {:induction false} SumIsFoldedTotal(words: seq<Word>)
    ensures Sum(words) == Folded(Total(words))
    ensures Total(words) == 0 <==> AllZero(words)
  {
    hide Add;
    TotalZero(words);
    if words != [] {
      var front := words[..|words| - 1];
      SumIsFoldedTotal(front);
      AddFolded(Total(front), words[|words| - 1]);
    }
  }

  lemma {:induction false} TotalUpdate(words: seq<Word>, k: nat, w: Word)
    requires k < |words|
    ensures Total(words[k := w]) == Total(words) - words[k] as nat + w as nat
    ensures Total(words) >= words[k] as nat
  {
    var n := |words| - 1;
    if k == n {
      assert words[k := w][..n] == words[..n];
    } else {
      TotalUpdate(words[..n], k, w);
      assert words[k := w][..n] == words[..n][k := w];
    }
  }

  /** The checksum field holds the complement of the sum of all other words. */
  ghost predicate Correct(header: seq<Word>, at: nat) {
    at < |header| && header[at] == Not(Sum(header[at := 0]))
  }

  /** The incremental update is the recomputed checksum, except for all-zero
      words: there it is 0 where the recomputed one is 0xffff. */
  lemma UpdateIsRecomputed(words: seq<Word>, k: nat, w: Word)
    requires k < |words|
    ensures var updated := Not(Add(Add(Sum(words), Not(words[k])), w));
            var recomputed := Not(Sum(words[k := w]));
            && (updated == recomputed <==> !AllZero(words[k := w]))
            && (AllZero(words[k := w]) ==> updated == 0 && recomputed == 0xffff)
  {
    var o := words[k];
    SumIsFoldedTotal(words);
    SumIsFoldedTotal(words[k := w]);
    TotalUpdate(words, k, w);
    hide Folded, Add;
    var t := Total(words);
    var x := t - o as nat + w as nat;
    AddFolded(t, Not(o));
    AddFolded(t + Not(o) as nat, w);
    assert t + Not(o) as nat + w as nat == x + 0xffff;
    FoldedShift(x);
  }

  lemma ComplementFolds(t: nat)
    ensures Folded(t + Not(Folded(t)) as nat) == 0xffff
  {
    var f := Folded(t) as nat;
    SameRemainder(f, t, 0xffff - f);
    FoldedEqual(t + (0xffff - f), 0xffff);
  }

  /** What a receiver checks: all words, the checksum among them, add up to 0xffff. */
  lemma CorrectVerifies(header: seq<Word>, at: nat)
    requires Correct(header, at)
    ensures Sum(header) == 0xffff
  {
    SumIsFoldedTotal(header);
    SumIsFoldedTotal(header[at := 0]);
    TotalUpdate(header, at, 0);
    hide Folded, Add, Sum, Total, Not;
    ComplementFolds(Total(header[at := 0]));
  }

  /** Change one word and update the checksum: the header is correct again, and
      verifies, unless all its words but the checksum are now zero. */
  method ReplaceWord(header: array<Word>, sum: nat, k: nat, w: Word)
    requires Correct(header[..], sum) && k < header.Length && k != sum
    modifies header
    ensures header[..][sum := 0] == old(header[..])[k := w][sum := 0]
    ensures Correct(header[..], sum) <==> !AllZero(header[..][sum := 0])
    ensures Sum(header[..]) == 0xffff <==> !AllZero(header[..][sum := 0])
  {
    hide Folded, Add, Sum;
    ghost var words := header[..][sum := 0];
    var from := header[k];
    header[k] := w;
    CsumReplace2(header, sum, from, w);
    assert header[..][sum := 0] == words[k := w];
    UpdateIsRecomputed(words, k, w);
    if AllZero(words[k := w]) {
      SumIsFoldedTotal(header[..]);
    } else {
      CorrectVerifies(header[..], sum);
    }
  }
}
