/** The two versions of skip_trailing_space in m_string.h against the plain backward scan. The string is `s`,
    stored from address `ptr`; the result is an address. Indexing `s` is checked, so every byte the code
    loads is proved to lie inside the string. */
module SkipSpace {
  import opened Bits
  import opened Codec
  import opened ByteOrder
  import opened Align

  ghost predicate AllSpace(b: seq<byte>) {
    forall i :: 0 <= i < |b| ==> b[i] == SPACE
  }

  // What remains after the trailing spaces are dropped.
  function TrimmedLen(s: seq<byte>): (n: nat)
    ensures n <= |s|
  {
    if s != [] && s[|s| - 1] == SPACE then TrimmedLen(s[..|s| - 1]) else |s|
  }

  /** The trimmed length is the one position with only spaces after it and no space just before it. */
  lemma {:induction false} TrimmedLenExact(s: seq<byte>, n: nat)
    requires n <= |s|
    ensures n == TrimmedLen(s) <==> (forall i :: n <= i < |s| ==> s[i] == 0x20) && (n == 0 || s[n - 1] != 0x20)
  {
    assert forall i :: 0 <= i < |s| - n ==> s[n..][i] == s[n + i];
    if s != [] && s[|s| - 1] == SPACE {
      var t := s[..|s| - 1];
      if n < |s| {
        TrimmedLenExact(t, n);
        assert s[n..] == t[n..] + [SPACE];
        assert forall i :: 0 <= i < |t[n..]| ==> s[n..][i] == t[n..][i];
      }
    } else {
      if n < |s| { assert s[n..][|s| - 1 - n] == s[|s| - 1]; }
    }
  }

  lemma SpacesExtend(s: seq<byte>, i: nat, j: nat)
    requires i <= j <= |s| && AllSpace(s[i..j]) && AllSpace(s[j..])
    ensures AllSpace(s[i..])
  {
    assert s[i..] == s[i..j] + s[j..];
  }

  // The byte loop, down to an address.
  method SkipSpaceBytes(ptr: nat, s: seq<byte>, from: nat, to: nat) returns (end: nat)
    requires ptr <= to <= from <= ptr + |s| && AllSpace(s[from - ptr..])
    ensures to <= end <= from && AllSpace(s[end - ptr..])
    ensures end == to || s[end - 1 - ptr] != SPACE
  {
    end := from;
    while end > to && s[end - 1 - ptr] == SPACE
      invariant to <= end <= from
      invariant AllSpace(s[end - ptr..])
      decreases end
    {
      SpacesExtend(s, end - 1 - ptr, end - ptr);
      end := end - 1;
    }
  }

  // ---------- the eight-byte version ----------

  const EIGHT_SPACES := 0x2020_2020_2020_2020

  lemma EightSpacesValue(mask: seq<byte>)
    requires |mask| == 8 && AllSpace(mask)
    ensures FromLE(mask) == EIGHT_SPACES
  {
    FromLEHalves(mask);
    FromLESmall(mask[..4]);
    FromLESmall(mask[4..]);
  }

  /** A load of eight bytes equals the mask exactly when all eight are spaces. */
  lemma {:induction false} EightSpaces(a: seq<byte>)
    requires |a| == 8
    ensures Uint8korr(a) == EIGHT_SPACES <==> AllSpace(a)
  {
    var mask := seq(8, _ => SPACE);
    assert a[..8] == a;
    EightSpacesValue(mask);
    if AllSpace(a) {
      assert a == mask;
    } else if Uint8korr(a) == EIGHT_SPACES {
      FromLEInjective(a, mask);
    }
  }

  method SkipTrailingSpace8(ptr: nat, s: seq<byte>) returns (end: nat)
    ensures end == ptr + TrimmedLen(s)
  {
    end := ptr + |s|;
    while end - ptr >= 8
      invariant ptr <= end <= ptr + |s|
      invariant AllSpace(s[end - ptr..])
      decreases end
    {
      var chunk := s[end - 8 - ptr..end - ptr];
      EightSpaces(chunk);
      if Uint8korr(chunk) != EIGHT_SPACES {
        break;
      }
      SpacesExtend(s, end - 8 - ptr, end - ptr);
      end := end - 8;
    }
    end := SkipSpaceBytes(ptr, s, end, ptr);
    TrimmedLenExact(s, end - ptr);
  }

  // ---------- the aligned-word version ----------

  const SPACE_INT := 0x2020_2020

  // An address converted to a signed pointer-sized integer and then to a 64-bit unsigned one.
  function Widen(p: uint32): (r: uint64) { U64(S32(p)) }

  // The last and first word boundaries, as the code computes them: widened, divided, truncated again.
  function EndWords(end: uint32): (r: uint32) {
    U32(Widen(end) / 4 * 4)
  }

  function StartWords(ptr: uint32): (r: uint32) {
    U32(U64(Widen(ptr) + 4 - 1) / 4 * 4)
  }

  /** Widening with sign extension does not disturb the boundaries: they are the enclosing multiples of the
      word size, as long as rounding up stays in the address space. */
  lemma WordBoundaries(p: uint32)
    ensures EndWords(p) == p / 4 * 4
    ensures p + 3 < 0x1_0000_0000 ==> StartWords(p) == (p + 3) / 4 * 4
  {
    WidenValue(p);
    if p >= 0x8000_0000 {
      SignWordIsAligned(p);
      DropSignWord(p / 4 * 4);
      if p + 3 < 0x1_0000_0000 {
        SignWordIsAligned(p + 3);
        DropSignWord((p + 3) / 4 * 4);
      }
    }
  }

  lemma WidenValue(p: uint32)
    ensures Widen(p) == if p < 0x8000_0000 then p else p + SIGN_WORD
  {
  }

  lemma SignWordIsAligned(x: nat)
    ensures (x + SIGN_WORD) / 4 * 4 == x / 4 * 4 + SIGN_WORD
  {
    DivPlusMultiple(x, 0x3FFF_FFFF_C000_0000, 4);
  }

  const SIGN_WORD := 0xFFFF_FFFF_0000_0000

  lemma DropSignWord(k: uint32)
    ensures U32(k + SIGN_WORD) == k
  {
    WrapIsMod(k + SIGN_WORD, 0x1_0000_0000);
  }

  method WordZone(ptr: uint32, end: uint32) returns (startWords: nat, endWords: nat)
    requires ptr + 3 < 0x1_0000_0000
    ensures startWords % 4 == 0 && ptr <= startWords < ptr + 4
    ensures endWords % 4 == 0 && endWords <= end < endWords + 4
  {
    endWords := EndWords(end);
    startWords := StartWords(ptr);
    WordBoundaries(end);
    WordBoundaries(ptr);
    Multiples(end);
    Multiples(ptr);
  }

  lemma Multiples(p: nat)
    ensures p / 4 * 4 % 4 == 0 && p / 4 * 4 <= p < p / 4 * 4 + 4
    ensures (p + 3) / 4 * 4 % 4 == 0 && p <= (p + 3) / 4 * 4 < p + 4
  {
  }

  /** Rounding up by division is the alignment macro at the word size, for every address: the last three become
      zero in both. */
  lemma StartWordsIsMyAlign(p: uint32)
    ensures Pow2(32) == 0x1_0000_0000
    ensures StartWords(p) == MyAlign(p, 4, 32)
  {
    WordBoundaries(p);
    Pow2Words();
    assert Pow2(2) == 4;
    MyAlignValue(p, 2, 32);
  }

  /** A word load in either byte order equals the mask exactly when its four bytes are spaces. */
  lemma FourSpaces(h: Host, a: seq<byte>)
    requires |a| == 4
    ensures ObjectValue(h, a) == SPACE_INT <==> AllSpace(a)
  {
    var mask := [SPACE, SPACE, SPACE, SPACE];
    FromLESmall(mask);
    assert Reverse(mask) == mask;
    ReverseTwice(a);
    if AllSpace(a) {
      assert a == mask;
    } else if ObjectValue(h, a) == SPACE_INT {
      FromLEInjective(if h.LittleEndian? then a else Reverse(a), mask);
    }
  }

  method LoadWord(h: Host, s: seq<byte>, at: nat) returns (word: nat)
    requires at + 4 <= |s|
    ensures word == SPACE_INT <==> AllSpace(s[at..at + 4])
  {
    word := ObjectValue(h, s[at..at + 4]);
    FourSpaces(h, s[at..at + 4]);
  }

  lemma PreviousWord(end: nat, start: nat)
    requires end % 4 == 0 && start % 4 == 0 && start < end
    ensures start <= end - 4 && (end - 4) % 4 == 0
  {
  }

  // A word read lies inside the string and is aligned.
  predicate GoodWordRead(addr: nat, ptr: nat, len: nat) {
    ptr <= addr && addr + 4 <= ptr + len && addr % 4 == 0
  }

  // The word loop, from an aligned end.
  method SkipSpaceWords(h: Host, ptr: nat, s: seq<byte>, from: nat, startWords: nat)
    returns (end: nat, ghost wordReads: seq<nat>)
    requires ptr <= startWords <= from <= ptr + |s| && startWords % 4 == 0 && from % 4 == 0
    requires AllSpace(s[from - ptr..])
    ensures startWords <= end <= from && AllSpace(s[end - ptr..])
    ensures forall addr <- wordReads :: GoodWordRead(addr, ptr, |s|)
  {
    wordReads := [];
    end := from;
    while end > startWords
      invariant startWords <= end <= from && end % 4 == 0
      invariant AllSpace(s[end - ptr..])
      invariant forall addr <- wordReads :: GoodWordRead(addr, ptr, |s|)
      decreases end
    {
      PreviousWord(end, startWords);
      var word := LoadWord(h, s, end - 4 - ptr);
      wordReads := wordReads + [end - 4];
      if word != SPACE_INT {
        break;
      }
      SpacesExtend(s, end - 4 - ptr, end - ptr);
      end := end - 4;
    }
  }

  /** The word scan, on a host of either byte order, for any string that does not wrap the address space
      (so that its one-past-the-end address exists). The addresses of its word reads are recorded. */
  method SkipTrailingSpaceAligned(h: Host, ptr: uint32, s: seq<byte>) returns (end: nat, ghost wordReads: seq<nat>)
    requires ptr + |s| < 0x1_0000_0000
    ensures end == ptr + TrimmedLen(s)
    ensures forall addr <- wordReads :: GoodWordRead(addr, ptr, |s|)
  {
    wordReads := [];
    end := ptr + |s|;
    if |s| > 20 {
      var startWords, endWords := WordZone(ptr, end);
      assert endWords > ptr;
      end := SkipSpaceBytes(ptr, s, end, endWords);
      if s[end - 1 - ptr] == SPACE && startWords < endWords {
        end, wordReads := SkipSpaceWords(h, ptr, s, end, startWords);
      }
    }
    end := SkipSpaceBytes(ptr, s, end, ptr);
    TrimmedLenExact(s, end - ptr);
  }
}
