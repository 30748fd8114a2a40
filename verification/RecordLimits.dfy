// How many bytes one record holds: src/reclimit.c. The record format byte is the
// data control block's.
module RecordLimits {

  const TYPE_MASK: bv8 := 0xC0
  const TYPE_V: bv8 := 0x40
  const SPANNED_BIT: bv8 := 0x08

  predicate IsVariable(recfm: bv8) { recfm & TYPE_MASK == TYPE_V }

  predicate Spanned(recfm: bv8) { IsVariable(recfm) && recfm & SPANNED_BIT != 0 }

  /** reclim_content_max(): the limit a text line is cut at. */
  function ContentMax(recfm: bv8, lrecl: nat, undefinedFormat: bool): nat
  {
    if undefinedFormat then lrecl
    else if IsVariable(recfm) then
      var overhead := if Spanned(recfm) then 8 else 4;
      if lrecl > overhead then lrecl - overhead else 0
    else lrecl
  }

  /** reclim_binary_piece(): the pieces a binary body is cut into, and the size of the buffer. */
  function BinaryPiece(recfm: bv8, lrecl: nat, undefinedFormat: bool): nat
  {
    if !undefinedFormat && Spanned(recfm) then ContentMax(recfm, lrecl, undefinedFormat) else lrecl
  }

  /** A text line always fits the buffer, which is sized for binary pieces. */
  lemma TextFitsBuffer(recfm: bv8, lrecl: nat, undefinedFormat: bool)
    ensures ContentMax(recfm, lrecl, undefinedFormat) <= BinaryPiece(recfm, lrecl, undefinedFormat) <= lrecl
    ensures ContentMax(recfm, lrecl, undefinedFormat) < BinaryPiece(recfm, lrecl, undefinedFormat)
         <==> !undefinedFormat && IsVariable(recfm) && !Spanned(recfm) && lrecl > 0
  {
  }

  /**
   * The limit is the longest text whose record, with its descriptor words, is no longer
   * than the record length: four bytes for a variable record, eight for a spanned one,
   * none for the other formats.
   */
  lemma LimitExact(recfm: bv8, lrecl: nat, undefinedFormat: bool, n: nat)
    requires n > 0
    ensures var words := if undefinedFormat || recfm & 0xC0 != 0x40 then 0 else if recfm & 0x08 == 0 then 4 else 8;
            n <= ContentMax(recfm, lrecl, undefinedFormat) <==> n + words <= lrecl
  {
  }

  /** A binary piece leaves room for them in a spanned record only. */
  lemma PieceExact(recfm: bv8, lrecl: nat, undefinedFormat: bool, n: nat)
    requires n > 0
    ensures var words := if undefinedFormat || recfm & 0xC0 != 0x40 || recfm & 0x08 == 0 then 0 else 8;
            n <= BinaryPiece(recfm, lrecl, undefinedFormat) <==> n + words <= lrecl
  {
  }
}
