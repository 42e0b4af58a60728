/** The S-AES key schedule, which the code writes out inline in both `ENC` and `DEC`: the
    16-bit key is split into two 8-bit words w0, w1, and four more words w2..w5 are derived
    with `RotNib`, `SubNib` and two round constants. Words are unsigned 8-bit values. */
module KeySchedule {
  import opened GaloisField
  import opened SBoxes

  /** An 8-bit word of the schedule (a `char` of the code, taken as unsigned). */
  type Word = bv8

  /** The upper and lower nibble of a word. */
  function High(w: Word): Nibble {
    (w >> 4) as Nibble
  }

  function Low(w: Word): Nibble {
    (w & 0xF) as Nibble
  }

  /** `RotNib`: moves the low nibble up and the high nibble down. */
  function RotNib(w: Word): Word {
    var right := w & 0x0F;
    var left := (w & 0xF0) >> 4;
    (right << 4) | left
  }

  /** `RotNib` exchanges the two nibbles of a word. */
  lemma RotNibSwaps(w: Word)
    ensures High(RotNib(w)) == Low(w) && Low(RotNib(w)) == High(w)
  {
  }

  /** A word is determined by its two nibbles. */
  lemma WordExtensionality(v: Word, w: Word)
    requires High(v) == High(w) && Low(v) == Low(w)
    ensures v == w
  {
  }

  /** Rotating twice gives back the word. */
  lemma RotNibInvolution(w: Word)
    ensures RotNib(RotNib(w)) == w
  {
    RotNibSwaps(w);
    RotNibSwaps(RotNib(w));
    WordExtensionality(RotNib(RotNib(w)), w);
  }

  /** `SubNib`: looks each nibble of the word up in `sBox`. */
  function SubNib(w: Word): Word {
    var nib1 := (w & 0xF0) >> 4;
    var nib2 := w & 0x0F;
    ((SBox[nib1 as int] as Word) << 4) | (SBox[nib2 as int] as Word)
  }

  /** `SubNib` substitutes the upper and the lower nibble independently. */
  lemma SubNibAt(w: Word)
    ensures High(SubNib(w)) == Sub(High(w)) && Low(SubNib(w)) == Sub(Low(w))
  {
    assert ((w & 0xF0) >> 4) as int == High(w) as int;
    assert (w & 0x0F) as int == Low(w) as int;
    var h, l := Sub(High(w)), Sub(Low(w));
    assert SubNib(w) == ((h as Word) << 4) | (l as Word);
  }

  /** The round constants of the two rounds (`0b10000000` and `0b00110000`). */
  const Rcon1: Word := 0x80
  const Rcon2: Word := 0x30

  /** The three round keys of a key. */
  datatype RoundKeys = RoundKeys(key0: bv16, key1: bv16, key2: bv16)

  /** The upper and lower word of a 16-bit value, and the value made of two words. */
  function HighWord(x: bv16): Word {
    ((x & 0xFF00) >> 8) as Word
  }

  function LowWord(x: bv16): Word {
    (x & 0x00FF) as Word
  }

  function Join(high: Word, low: Word): bv16 {
    ((high as bv16) << 8) | (low as bv16)
  }

  /** A value is the join of its words... */
  lemma JoinOfWords(x: bv16)
    ensures Join(HighWord(x), LowWord(x)) == x
  {
  }

  /** ...and the words of a joined value are the words it was made of. */
  lemma WordsOfJoin(high: Word, low: Word)
    ensures HighWord(Join(high, low)) == high && LowWord(Join(high, low)) == low
  {
  }

  /** One round of the schedule takes the words (w0, w1) of a round key to the words
      (w2, w3) of the next: w2 = w0 ^ rcon ^ SubNib(RotNib(w1)) and w3 = w1 ^ w2. */
  function NextHigh(w0: Word, w1: Word, rcon: Word): Word {
    w0 ^ rcon ^ SubNib(RotNib(w1))
  }

  function NextLow(w0: Word, w1: Word, rcon: Word): Word {
    w1 ^ NextHigh(w0, w1, rcon)
  }

  /** The round run backwards: w1 = w3 ^ w2, then w0 = w2 ^ rcon ^ SubNib(RotNib(w1)). */
  function PreviousLow(w2: Word, w3: Word): Word {
    w3 ^ w2
  }

  function PreviousHigh(w2: Word, w3: Word, rcon: Word): Word {
    w2 ^ rcon ^ SubNib(RotNib(PreviousLow(w2, w3)))
  }

  /** A round of the schedule loses nothing: running it backwards recovers the words it
      started from... */
  lemma PreviousOfNext(w0: Word, w1: Word, rcon: Word)
    ensures PreviousHigh(NextHigh(w0, w1, rcon), NextLow(w0, w1, rcon), rcon) == w0
    ensures PreviousLow(NextHigh(w0, w1, rcon), NextLow(w0, w1, rcon)) == w1
  {
    assert PreviousLow(NextHigh(w0, w1, rcon), NextLow(w0, w1, rcon)) == w1;
  }

  /** ...and every pair of words is the round after some pair. */
  lemma NextOfPrevious(w2: Word, w3: Word, rcon: Word)
    ensures NextHigh(PreviousHigh(w2, w3, rcon), PreviousLow(w2, w3), rcon) == w2
    ensures NextLow(PreviousHigh(w2, w3, rcon), PreviousLow(w2, w3), rcon) == w3
  {
  }

  /** The same round on 16-bit round keys, whose high word is the first. */
  function NextRoundKey(k: bv16, rcon: Word): bv16 {
    Join(NextHigh(HighWord(k), LowWord(k), rcon), NextLow(HighWord(k), LowWord(k), rcon))
  }

  function PreviousRoundKey(k: bv16, rcon: Word): bv16 {
    Join(PreviousHigh(HighWord(k), LowWord(k), rcon), PreviousLow(HighWord(k), LowWord(k)))
  }

  lemma PreviousRoundKeyOfJoin(w2: Word, w3: Word, rcon: Word)
    ensures PreviousRoundKey(Join(w2, w3), rcon) == Join(PreviousHigh(w2, w3, rcon), PreviousLow(w2, w3))
  {
    WordsOfJoin(w2, w3);
  }

  lemma NextRoundKeyOfJoin(w0: Word, w1: Word, rcon: Word)
    ensures NextRoundKey(Join(w0, w1), rcon) == Join(NextHigh(w0, w1, rcon), NextLow(w0, w1, rcon))
  {
    WordsOfJoin(w0, w1);
  }

  /** Each round key determines the one before it... */
  lemma PreviousOfNextRoundKey(k: bv16, rcon: Word)
    ensures PreviousRoundKey(NextRoundKey(k, rcon), rcon) == k
  {
    PreviousRoundKeyOfJoin(NextHigh(HighWord(k), LowWord(k), rcon), NextLow(HighWord(k), LowWord(k), rcon), rcon);
    PreviousOfNext(HighWord(k), LowWord(k), rcon);
    JoinOfWords(k);
  }

  /** ...and every 16-bit value is the round key after some round key. */
  lemma NextOfPreviousRoundKey(k: bv16, rcon: Word)
    ensures NextRoundKey(PreviousRoundKey(k, rcon), rcon) == k
  {
    NextRoundKeyOfJoin(PreviousHigh(HighWord(k), LowWord(k), rcon), PreviousLow(HighWord(k), LowWord(k)), rcon);
    NextOfPrevious(HighWord(k), LowWord(k), rcon);
    JoinOfWords(k);
  }

  /** The schedule inline in `ENC` and `DEC`: key0 is the key, key1 = (w2 << 8) | w3 and
      key2 = (w4 << 8) | w5. */
  function KeyExpansion(key: bv16): RoundKeys {
    var w0 := HighWord(key);
    var w1 := LowWord(key);
    var w2 := NextHigh(w0, w1, Rcon1);
    var w3 := w1 ^ w2;
    var w4 := NextHigh(w2, w3, Rcon2);
    var w5 := w3 ^ w4;
    RoundKeys(key, Join(w2, w3), Join(w4, w5))
  }

  /** key0 is the key, and key1 is one round of the schedule after it, with `Rcon1`. */
  lemma KeyExpansionFirstRound(key: bv16)
    ensures KeyExpansion(key).key0 == key
    ensures KeyExpansion(key).key1 == NextRoundKey(key, Rcon1)
  {
  }

  /** The first round key alone determines the key. */
  lemma FirstRoundKeyDeterminesKey(key: bv16)
    ensures PreviousRoundKey(KeyExpansion(key).key1, Rcon1) == key
  {
    KeyExpansionFirstRound(key);
    PreviousOfNextRoundKey(key, Rcon1);
  }

  /** The schedule of the worked example of S-AES: key 0x4AF5. */
  lemma KnownKeySchedule()
    ensures KeyExpansion(0x4AF5) == RoundKeys(0x4AF5, 0xDD28, 0x87AF)
  {
  }

  /* The schedule as the code computes it where `char` is a signed type. `SubNib` returns a
     `char`; XORed into an `unsigned short`, a result of 0x80 or more is sign-extended, so
     w2 and w3 carry 0xFF in their upper byte when the first such result is 0x80 or more, and
     w4 and w5 can carry it depending on both results. `RotNib` receives the low byte of
     its `unsigned short` argument. */

  /** A `char` with bits `c`, converted to `int` and then to `unsigned short` under a signed `char`. */
  function SignExtend(c: Word): bv16 {
    if c & 0x80 != 0 then 0xFF00 | (c as bv16) else c as bv16
  }

  function KeyExpansionSignedChar(key: bv16): RoundKeys {
    var w0: bv16 := (key & 0xFF00) >> 8;
    var w1: bv16 := key & 0x00FF;
    var w2 := w0 ^ (Rcon1 as bv16) ^ SignExtend(SubNib(RotNib((w1 & 0xFF) as Word)));
    var w3 := w1 ^ w2;
    var w4 := w2 ^ (Rcon2 as bv16) ^ SignExtend(SubNib(RotNib((w3 & 0xFF) as Word)));
    var w5 := w3 ^ w4;
    RoundKeys(key, (w2 << 8) | w3, (w4 << 8) | w5)
  }

  /** Key 0: SubNib(RotNib(0)) = 0x99 sign-extends to 0xFF99, so key1 comes out as 0xFF19
      instead of 0x1919, and running the first round backwards no longer gives the key. */
  lemma SignedCharScheduleDiffers()
    ensures KeyExpansionSignedChar(0x0000).key1 == 0xFF19
    ensures KeyExpansion(0x0000).key1 == 0x1919
    ensures PreviousRoundKey(KeyExpansionSignedChar(0x0000).key1, Rcon1) == 0xF0E6
  {
  }

  /** For the same key the second round key comes out the same under both readings: w2 and
      w3 carry 0xFF in their upper byte, w4 = 0xFF0D carries it too, but w5 = w3 ^ w4 = 0x0014
      does not, and the shift by 8 drops the upper byte of w4. */
  lemma SignedCharSecondRoundKeyAgrees()
    ensures KeyExpansionSignedChar(0x0000).key2 == 0x0D14
    ensures KeyExpansion(0x0000).key2 == 0x0D14
  {
  }
}
