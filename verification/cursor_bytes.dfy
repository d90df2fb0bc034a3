/**
 The word under the cursor in byte offsets, as the Completer receives them
 (src/completion.rs, complete). The cursor and the returned start are byte
 offsets into the UTF-8 line; the source puts the start one byte after the
 first byte of the last whitespace character, which is inside that character
 when it takes more than one byte.
 */
module CursorBytes {
  import opened Completion

  /** The number of bytes of c in UTF-8. */
  function Utf8Width(c: char): (n: nat)
    ensures 1 <= n <= 4
  {
    if c as int < 0x80 then 1
    else if c as int < 0x800 then 2
    else if c as int < 0x1_0000 then 3
    else 4
  }

  /** The byte offset of the k-th character of line. */
  function ByteOffset(line: string, k: nat): nat
    requires k <= |line|
    decreases k
  {
    if k == 0 then 0 else ByteOffset(line, k - 1) + Utf8Width(line[k - 1])
  }

  /** b is where some character of line starts, or the end of line. */
  ghost predicate IsCharBoundary(line: string, b: nat) {
    exists k :: 0 <= k <= |line| && ByteOffset(line, k) == b
  }

  /** Later characters start at strictly later bytes. */
  lemma {:induction false} ByteOffsetStrict(line: string, j: nat, k: nat)
    requires j < k <= |line|
    ensures ByteOffset(line, j) < ByteOffset(line, k)
    decreases k
  {
    if j < k - 1 {
      ByteOffsetStrict(line, j, k - 1);
    }
  }

  lemma ByteOffsetMono(line: string, j: nat, k: nat)
    requires j <= k <= |line|
    ensures ByteOffset(line, j) <= ByteOffset(line, k)
  {
    if j < k {
      ByteOffsetStrict(line, j, k);
    }
  }

  /**
   The word start as written: one byte after the offset of the last
   whitespace before the cursor (the cursor at character pos), or 0.
   */
  function WordStartBytesAsWritten(line: string, pos: nat): (b: nat)
    requires pos <= |line|
    ensures b <= ByteOffset(line, pos)
  {
    var s := WordStart(line, pos);
    if s == 0 then 0
    else
      ByteOffsetMono(line, s, pos);
      ByteOffset(line, s - 1) + 1
  }

  /**
   The corrected word start: the offset of the whitespace plus its width. It
   is a character boundary, the start of the word under the cursor.
   */
  function WordStartBytes(line: string, pos: nat): (b: nat)
    requires pos <= |line|
    ensures b == ByteOffset(line, WordStart(line, pos))
    ensures IsCharBoundary(line, b)
    ensures b <= ByteOffset(line, pos)
  {
    var s := WordStart(line, pos);
    ByteOffsetMono(line, s, pos);
    if s == 0 then 0 else ByteOffset(line, s - 1) + Utf8Width(line[s - 1])
  }

  /** When the separating whitespace is ASCII, the source's start is the corrected one. */
  lemma AsWrittenAgreesOnAscii(line: string, pos: nat)
    requires pos <= |line|
    requires WordStart(line, pos) > 0 ==> line[WordStart(line, pos) - 1] as int < 0x80
    ensures WordStartBytesAsWritten(line, pos) == WordStartBytes(line, pos)
  {
  }

  /**
   "a", a no-break space (two bytes), "b", cursor at the end (byte 4): the
   source starts the word at byte 2, inside the no-break space, where slicing
   the line is not allowed.
   */
  lemma AsWrittenSplitsNoBreakSpace()
    ensures WordStartBytesAsWritten(['a', '\U{00A0}', 'b'], 3) == 2
    ensures !IsCharBoundary(['a', '\U{00A0}', 'b'], 2)
    ensures WordStartBytes(['a', '\U{00A0}', 'b'], 3) == 3
  {
    var line := ['a', '\U{00A0}', 'b'];
    assert WordStart(line, 3) == 2 by {
      assert !IsWhitespace(line[2]) && IsWhitespace(line[1]);
    }
    assert ByteOffset(line, 1) == 1;
    assert ByteOffset(line, 2) == 3;
    assert ByteOffset(line, 3) == 4;
    forall k | 0 <= k <= |line| ensures ByteOffset(line, k) != 2 {
      if k > 2 {
        ByteOffsetStrict(line, 2, k);
      }
    }
  }
}
