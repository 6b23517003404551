/** What `corruptFile` reads back after the flip, and the verdict it draws:
    the running checksum up to the footer's checksum field, the 8-byte value
    stored in that field, and their comparison with the checksum recorded
    before the corruption. */
module CorruptionVerifier {
  import opened Bytes
  import opened Outcomes

  /** The checksum library, which the model does not look inside.
      `checksum` is the running checksum of a checksummed input after it has
      streamed the given bytes; `recorded` is `CodecUtil.retrieveChecksum` on
      a whole file, `None` where that call throws. */
  datatype ChecksumOracle = ChecksumOracle(
    checksum: seq<Byte> -> Long,
    recorded: seq<Byte> -> Option<Long>)

  /** The two values read back after the corruption. */
  datatype FooterReading = FooterReading(checksumAfter: Long, storedAfter: Long)

  /** Where the checksum field of the footer starts. */
  function FooterStart(content: seq<Byte>): int
  {
    |content| - LongBytes
  }

  /** Seek to `length - 8`, take the running checksum there, and read the
      final 8 bytes as a `long`. A file shorter than 8 bytes cannot be read
      this way: the seek target is negative. */
  function ReadFooter(content: seq<Byte>, checksum: seq<Byte> -> Long): (r: Result<FooterReading>)
    ensures r.Err? <==> |content| < LongBytes
    ensures r.Err? ==> r.failure == FooterUnreadable
  {
    if |content| < LongBytes then Err(FooterUnreadable)
    else
      var n := FooterStart(content);
      Ok(FooterReading(checksum(content[..n]), ReadLong(content[n..])))
  }

  /** The verdict after the corruption: the test goes on exactly when one of
      the two values read back differs from the checksum recorded before, and
      is skipped as a checksum collision when both equal it. It never passes
      without one of the two. */
  function Verdict(before: Long, reading: FooterReading): (o: Outcome)
    ensures o.Detected? || o.Inconclusive?
    ensures o.Inconclusive? <==> reading.checksumAfter == before && reading.storedAfter == before
  {
    if reading.checksumAfter != before || reading.storedAfter != before then Detected else Inconclusive
  }

  /** A file whose footer holds the checksum of everything before it, and
      whose recorded checksum is that stored value: what a well-formed file
      looks like before it is corrupted. */
  predicate Consistent(content: seq<Byte>, oracle: ChecksumOracle)
  {
    && |content| >= LongBytes
    && var n := FooterStart(content);
       var stored := ReadLong(content[n..]);
       oracle.recorded(content) == Some(stored) && oracle.checksum(content[..n]) == stored
  }

  /** A checksum that changes whenever one byte of its input changes, as
      CRC-32 does. */
  ghost predicate DetectsSingleByteChanges(checksum: seq<Byte> -> Long)
  {
    forall s: seq<Byte>, p: int, v: Byte {:trigger s[p := v]} :: 0 <= p < |s| && v != s[p] ==> checksum(s[p := v]) != checksum(s)
  }

  /** Changing one byte of a file of at least 8 bytes changes exactly one of
      the two regions `ReadFooter` looks at. A change before the footer's
      checksum field leaves the stored value as it was and changes the
      streamed bytes at that one place; a change inside the field leaves the
      running checksum as it was and changes the stored value. */
  lemma {:induction false} ReadingAfterOneByteChange(content: seq<Byte>, p: int, v: Byte, checksum: seq<Byte> -> Long)
    requires |content| >= LongBytes
    requires 0 <= p < |content| && v != content[p]
    ensures var n := FooterStart(content);
            var before := ReadFooter(content, checksum);
            var after := ReadFooter(content[p := v], checksum);
            && before.Ok? && after.Ok?
            && (p < n ==> && after.value.storedAfter == before.value.storedAfter
                          && content[p := v][..n] == content[..n][p := v])
            && (p >= n ==> && after.value.checksumAfter == before.value.checksumAfter
                           && after.value.storedAfter != before.value.storedAfter)
  {
    var n := FooterStart(content);
    var changed := content[p := v];
    if p < n {
      assert changed[n..] == content[n..];
      assert changed[..n] == content[..n][p := v];
    } else {
      assert changed[..n] == content[..n];
      assert changed[n..][p - n] != content[n..][p - n];
      ReadLongInjective(changed[n..], content[n..]);
    }
  }
}
