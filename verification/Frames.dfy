/** What `sendText` does to the transmit buffer: two appends, of the text and of CR LF, whose results
    it ignores. */
module Frames {
  import opened Words
  import opened Framing
  import opened SimpleBuffer

  const BUFFER_SIZE: uint32 := 1024 * 16
  const MAX_READ_SIZE: uint32 := 1024 * 4
  const MAX_BUFFER_SIZE: uint32 := 1024 * 1024 * 512

  /** What `sendText` appends for a `const char *`: a null pointer counts as the empty string, and the
      length of a string is cut to 32 bits. */
  function TextSent(str: Option<seq<byte>>): (t: Text)
    ensures |t| < WIDTH && NUL !in t
    ensures str.Some? && NUL !in str.value && |str.value| < WIDTH ==> t == str.value
  {
    match str
    case None => []
    case Some(s) => CString(s)[..|CString(s)| % WIDTH]
  }

  /** Whether the append of a text of `len` bytes finds room. */
  predicate TextFits(w: Window, len: nat) {
    Fits(w, MAX_BUFFER_SIZE, len)
  }

  function TextAppended(w: Window, len: nat): Window {
    Appended(w, MAX_BUFFER_SIZE, len)
  }

  /** Whether the append of CR LF after it finds room. */
  predicate EndFits(w: Window, len: nat) {
    Fits(TextAppended(w, len), MAX_BUFFER_SIZE, 2)
  }

  predicate FrameFits(w: Window, len: nat) {
    TextFits(w, len) && EndFits(w, len)
  }

  /** The bytes that reach the transmit buffer. */
  function Appending(w: Window, text: Text): seq<byte> {
    (if TextFits(w, |text|) then text else []) + (if EndFits(w, |text|) then END else [])
  }

  /** The window after both appends. */
  function FrameAppended(w: Window, len: nat): Window {
    Appended(TextAppended(w, len), MAX_BUFFER_SIZE, 2)
  }

  /** The window of a connection's buffer holding `n` bytes. */
  ghost predicate WindowFor(w: Window, n: nat) {
    w.Valid() && w.Size() == n && w.max <= MAX_BUFFER_SIZE
  }

  lemma FrameKeepsWindow(w: Window, text: Text, n: nat)
    requires WindowFor(w, n)
    ensures WindowFor(FrameAppended(w, |text|), n + |Appending(w, text)|)
  {
    ReservedMakesRoom(w, MAX_BUFFER_SIZE, |text|);
    ReservedMakesRoom(TextAppended(w, |text|), MAX_BUFFER_SIZE, 2);
    hide Fits, Reserved;
  }

  /** The window after the transport took `n` bytes; a send that moved nothing consumes nothing. */
  function Taken(w: Window, n: nat): Window {
    if n == 0 then w else Consumed(w, n)
  }

  lemma TakenTwice(w: Window, size: nat, m: nat, n: nat)
    requires w.Valid() && w.Size() == size && m + n <= size
    ensures Taken(Taken(w, m), n) == Taken(w, m + n)
  {
    ConsumedTwice(w, m, n);
  }

  /** The frame arrives in the buffer whole if and only if both appends find room. */
  lemma WholeFrameIffFits(w: Window, text: Text)
    ensures Appending(w, text) == Encode(text) <==> FrameFits(w, |text|)
  {
    hide Fits, Appended;
    assert |Encode(text)| == |text| + 2;
    EmptyFits(w);
  }

  lemma EmptyFits(w: Window)
    ensures Fits(w, MAX_BUFFER_SIZE, 0)
  {
  }

  /** CR LF is sent without its text if and only if the text finds no room and two bytes do. */
  lemma EndAloneIff(w: Window, text: Text)
    requires text != [] && text != END
    ensures Appending(w, text) == END <==> !TextFits(w, |text|) && Fits(w, MAX_BUFFER_SIZE, 2)
  {
    hide Fits, Reserved;
    if TextFits(w, |text|) {
      assert Appending(w, text)[..|text|] == text;
    }
  }

  /** No frame is cut while four times the text and twice what waits, and 8, stay within the limit. */
  lemma FrameHeadroom(w: Window, len: nat)
    requires w.Valid() && 4 * len + 2 * w.Size() + 8 <= MAX_BUFFER_SIZE
    ensures FrameFits(w, len)
  {
    HeadroomSuffices(w, MAX_BUFFER_SIZE, len);
    HeadroomSuffices(TextAppended(w, len), MAX_BUFFER_SIZE, 2);
  }

  /** For a buffer of a connection sizes never wrap around with a text of up to 3 GiB less one byte. */
  lemma ShortTextIsExact(w: Window, len: nat)
    requires w.max <= MAX_BUFFER_SIZE && len < 3 * 1024 * 1024 * 1024
    ensures Exact(w, MAX_BUFFER_SIZE, len)
  {
    SmallIsExact(w, MAX_BUFFER_SIZE, len);
  }
}
