/** The bitmap of csc369_bitutil.c, which hands out the slots of the swap file. */
module Bitmap {
  import opened Options
  import opened Powers
  import opened Words
  import opened Paging

  const BITS_PER_WORD: nat := 64
  const WORD_ALL_BITS: nat := 0xFFFF_FFFF_FFFF_FFFF

  lemma WordSize()
    ensures Pow2(BITS_PER_WORD) == WORD_ALL_BITS + 1
  {
    PowersOfTwo();
    Pow2Add(32, 32);
  }

  /** nwords_for_nbits. */
  function WordCount(bits: nat): (n: nat)
    ensures n * BITS_PER_WORD >= bits > (n - 1) * BITS_PER_WORD || bits == n == 0
  {
    (bits + BITS_PER_WORD - 1) / BITS_PER_WORD
  }

  /** Bit i of an array of words. */
  ghost predicate BitOf(words: seq<nat>, i: nat)
    requires i < |words| * BITS_PER_WORD
  {
    Bit(words[i / BITS_PER_WORD], i % BITS_PER_WORD)
  }

  ghost predicate WordsFit(words: seq<nat>) {
    forall k | 0 <= k < |words| :: words[k] <= WORD_ALL_BITS
  }

  /** Setting one bit of one word. */
  lemma SetOneBit(words: seq<nat>, k: nat, o: nat)
    requires k < |words| && o < BITS_PER_WORD && WordsFit(words)
    ensures var words' := words[k := Or(words[k], Pow2(o))];
            && WordsFit(words')
            && forall i: nat | i < |words| * BITS_PER_WORD ::
                 BitOf(words', i) == (BitOf(words, i) || i == k * BITS_PER_WORD + o)
  {
    var words' := words[k := Or(words[k], Pow2(o))];
    WordSize();
    Pow2Monotone(o + 1, BITS_PER_WORD);
    OrFits(words[k], Pow2(o), BITS_PER_WORD);
    forall i: nat | i < |words| * BITS_PER_WORD
      ensures BitOf(words', i) == (BitOf(words, i) || i == k * BITS_PER_WORD + o)
    {
      BitOr(words[k], Pow2(o), i % BITS_PER_WORD);
      BitOne(o, i % BITS_PER_WORD);
    }
  }

  class Bitmap {
    const nbits: nat
    const words: array<nat>

    /** The bits beyond the last are set, so that they are never handed out. */
    ghost predicate Valid()
      reads words
    {
      && words.Length == WordCount(nbits)
      && WordsFit(words[..])
      && forall i: nat | nbits <= i < words.Length * BITS_PER_WORD :: BitOf(words[..], i)
    }

    /** Which of the nbits slots are taken. */
    ghost function Used(): (used: seq<bool>)
      requires Valid()
      reads words
      ensures |used| == nbits
      ensures forall i: nat | i < nbits :: used[i] == BitOf(words[..], i)
    {
      seq(nbits, i requires 0 <= i < nbits && Valid() reads words => BitOf(words[..], i))
    }

    /** CSC369_BitmapCreate. */
    constructor (bitCount: nat)
      ensures Valid() && nbits == bitCount && fresh(words)
      ensures Used() == seq(bitCount, _ => false)
    {
      var wordCount := WordCount(bitCount);
      nbits := bitCount;
      words := new nat[wordCount](_ => 0);
      new;
      forall i: nat | i < wordCount * BITS_PER_WORD
        ensures !BitOf(words[..], i)
      {
        BitZero(i % BITS_PER_WORD);
      }
      if wordCount > bitCount / BITS_PER_WORD {
        MarkLeftover(wordCount - 1, bitCount - (wordCount - 1) * BITS_PER_WORD);
      }
    }

    /** The loop that marks the leftover bits of the last word. */
    method MarkLeftover(idx: nat, overbits: nat)
      requires words.Length == idx + 1 && 0 < overbits < BITS_PER_WORD && WordsFit(words[..])
      requires forall i: nat | i < words.Length * BITS_PER_WORD :: !BitOf(words[..], i)
      modifies words
      ensures WordsFit(words[..])
      ensures forall i: nat | i < words.Length * BITS_PER_WORD ::
            BitOf(words[..], i) == (i >= idx * BITS_PER_WORD + overbits)
    {
      var j := overbits;
      while j < BITS_PER_WORD
        invariant overbits <= j <= BITS_PER_WORD && WordsFit(words[..])
        invariant forall i: nat | i < words.Length * BITS_PER_WORD ::
                    BitOf(words[..], i) == (idx * BITS_PER_WORD + overbits <= i < idx * BITS_PER_WORD + j)
      {
        SetOneBit(words[..], idx, j);
        ghost var before := words[..];
        words[idx] := Or(words[idx], Pow2(j));
        assert words[..] == before[idx := Or(before[idx], Pow2(j))];
        j := j + 1;
      }
    }

    /** CSC369_BitmapAlloc; None stands for the result -1. */
    method Alloc() returns (index: Option<nat>)
      requires Valid()
      modifies words
      ensures Valid()
      ensures index == LowestClear(old(Used()))
      ensures Used() == if index.Some? then old(Used())[index.value := true] else old(Used())
    {
      ghost var before := words[..];
      var idx := 0;
      while idx < words.Length
        invariant 0 <= idx <= words.Length && words[..] == before
        invariant forall i: nat | i < idx * BITS_PER_WORD :: BitOf(before, i)
      {
        if words[idx] != WORD_ALL_BITS {
          var i := TakeFrom(idx);
          return Some(i);
        }
        FullWord(before, idx);
        idx := idx + 1;
      }
      NoneClear(Used());
      return None;
    }

    /** A word with a clear bit, all bits of those before it being set. */
    method TakeFrom(idx: nat) returns (index: nat)
      requires Valid() && idx < words.Length && words[idx] != WORD_ALL_BITS
      requires forall i: nat | i < idx * BITS_PER_WORD :: BitOf(words[..], i)
      modifies words
      ensures Valid()
      ensures LowestClear(old(Used())) == Some(index) && Used() == old(Used())[index := true]
    {
      ghost var before := words[..];
      var offset := FindBit(idx);
      FirstClear(before, idx, offset);
      LowestIs(Used(), idx * BITS_PER_WORD + offset);
      Take(idx, offset);
      return idx * BITS_PER_WORD + offset;
    }

    /** The bit found is set. */
    method Take(idx: nat, offset: nat)
      requires Valid() && idx < words.Length && offset < BITS_PER_WORD && idx * BITS_PER_WORD + offset < nbits
      modifies words
      ensures Valid() && Used() == old(Used())[idx * BITS_PER_WORD + offset := true]
    {
      ghost var before := words[..];
      SetOneBit(before, idx, offset);
      words[idx] := Or(words[idx], Pow2(offset));
      assert words[..] == before[idx := Or(before[idx], Pow2(offset))];
    }

    /** The inner loop: the lowest clear bit of a word that has one. */
    method FindBit(idx: nat) returns (offset: nat)
      requires idx < words.Length && words[idx] < WORD_ALL_BITS
      ensures offset < BITS_PER_WORD && !Bit(words[idx], offset)
      ensures forall o: nat | o < offset :: Bit(words[idx], o)
    {
      WordSize();
      ghost var clear := SomeBitClear(words[idx], BITS_PER_WORD);
      offset := 0;
      while offset < BITS_PER_WORD
        invariant 0 <= offset <= clear
        invariant forall o: nat | o < offset :: Bit(words[idx], o)
      {
        AndBit(words[idx], offset);
        if And(words[idx], Pow2(offset)) == 0 {
          return;
        }
        offset := offset + 1;
      }
      assert false;
    }
  }

  lemma FullWord(words: seq<nat>, idx: nat)
    requires idx < |words| && words[idx] == WORD_ALL_BITS
    ensures forall i: nat | idx * BITS_PER_WORD <= i < (idx + 1) * BITS_PER_WORD :: BitOf(words, i)
  {
    WordSize();
    forall i: nat | idx * BITS_PER_WORD <= i < (idx + 1) * BITS_PER_WORD
      ensures BitOf(words, i)
    {
      AllBits(BITS_PER_WORD, i % BITS_PER_WORD);
    }
  }

  /** The lowest clear bit of the first word that is not full is the lowest of all. */
  lemma FirstClear(words: seq<nat>, idx: nat, offset: nat)
    requires idx < |words| && offset < BITS_PER_WORD && !Bit(words[idx], offset)
    requires forall o: nat | o < offset :: Bit(words[idx], o)
    requires forall i: nat | i < idx * BITS_PER_WORD :: BitOf(words, i)
    ensures !BitOf(words, idx * BITS_PER_WORD + offset)
    ensures forall i: nat | i < idx * BITS_PER_WORD + offset :: BitOf(words, i)
  {
    forall i: nat | i < idx * BITS_PER_WORD + offset
      ensures BitOf(words, i)
    {
      if i >= idx * BITS_PER_WORD {
        assert i / BITS_PER_WORD == idx && i % BITS_PER_WORD < offset;
      }
    }
  }

  /** A clear bit with none before it is the lowest. */
  lemma LowestIs(used: seq<bool>, i: nat)
    requires i < |used| && !used[i] && forall j | 0 <= j < i :: used[j]
    ensures LowestClear(used) == Some(i)
  {}

  lemma NoneClear(used: seq<bool>)
    requires forall i | 0 <= i < |used| :: used[i]
    ensures LowestClear(used) == None
  {}
}
