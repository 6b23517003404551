/** `CorruptionUtils.corruptFile`: pick one of the given files, record its
    checksum, corrupt one byte of it and decide whether the corruption shows. */
module CorruptionUtils {
  import opened Bytes
  import opened Outcomes
  import opened PositionPicker
  import opened ByteFlipper
  import opened CorruptionVerifier

  /** A candidate path: its file name, whether it is a regular file, and the
      bytes of the file. */
  datatype File = File(name: string, isRegular: bool, data: array<Byte>)

  /** The end of a run on the chosen file, and what the file holds then. */
  datatype Attempt = Attempt(outcome: Outcome, content: seq<Byte>)

  /** The run on the chosen file, once it is known to be a regular file:
      retrieve the recorded checksum, pick a position, increment the byte
      there, read back the running and the stored checksum and judge them.
      The file is left as it was, or differs in the one byte at the drawn
      position; a verdict is only reached after that byte has changed; and
      the last 4 bytes of a compound file are never touched. */
  function CorruptTarget(name: string, content: seq<Byte>, draw: int, oracle: ChecksumOracle): (a: Attempt)
    requires ValidDraw(name, |content|, draw)
    ensures |a.content| == |content|
    ensures a.content != content ==>
              && 0 <= draw < |content|
              && forall i :: 0 <= i < |content| ==> (a.content[i] == content[i] <==> i != draw)
    ensures oracle.recorded(content).Some? && |content| > 0 ==>
              && 0 <= draw < |content|
              && a.content[draw] == (content[draw] as int + 1) % 256
              && a.content == Flipped(content, draw)
    ensures a.outcome.Detected? || a.outcome.Inconclusive? ==> a.content != content
    ensures a.outcome.Failed? && a.outcome.failure != FooterUnreadable ==> a.content == content
    ensures a.outcome.Failed? ==> a.outcome.failure in {ChecksumUnreadable, NonPositiveBound, FooterUnreadable}
    ensures a.outcome == Failed(ChecksumUnreadable) <==> oracle.recorded(content).None?
    ensures a.outcome == Failed(NonPositiveBound) <==> oracle.recorded(content).Some? && |content| == 0
    ensures a.outcome == Failed(FooterUnreadable) <==> oracle.recorded(content).Some? && 0 < |content| < LongBytes
    ensures IsCompoundFile(name) && |content| > UnverifiedChecksumBytes ==>
              a.content[|content| - UnverifiedChecksumBytes..] == content[|content| - UnverifiedChecksumBytes..]
  {
    match oracle.recorded(content)
    case None => Attempt(Failed(ChecksumUnreadable), content)
    case Some(before) =>
      match PickPosition(name, |content|, draw)
      case Err(f) => Attempt(Failed(f), content)
      case Ok(position) =>
        var after := Flipped(content, position);
        match ReadFooter(after, oracle.checksum)
        case Err(f) => Attempt(Failed(f), after)
        case Ok(reading) => Attempt(Verdict(before, reading), after)
  }

  /** The skipped verdict on a well-formed file means a genuine collision of
      the checksum: the corrupted byte lies before the footer's checksum
      field, and the changed bytes there have the same checksum as the
      original ones. A corruption of the checksum field itself is always
      detected. */
  lemma InconclusiveMeansCollision(name: string, content: seq<Byte>, draw: int, oracle: ChecksumOracle)
    requires ValidDraw(name, |content|, draw)
    requires Consistent(content, oracle)
    requires CorruptTarget(name, content, draw, oracle).outcome == Inconclusive
    ensures var n := FooterStart(content);
            var after := CorruptTarget(name, content, draw, oracle).content;
            && 0 <= draw < n
            && after[..n] != content[..n]
            && oracle.checksum(after[..n]) == oracle.checksum(content[..n])
  {
    var n := FooterStart(content);
    var after := Flipped(content, draw);
    assert after == content[draw := after[draw]];
    ReadingAfterOneByteChange(content, draw, after[draw], oracle.checksum);
    if draw < n {
      assert after[..n][draw] != content[..n][draw];
    }
  }

  /** The converse: on a well-formed file, a flip before the footer's checksum
      field whose changed bytes keep their checksum is skipped. Together with
      `InconclusiveMeansCollision`, a run on a well-formed file is skipped
      exactly when the flip causes such a collision. */
  lemma CollisionMeansInconclusive(name: string, content: seq<Byte>, draw: int, oracle: ChecksumOracle)
    requires ValidDraw(name, |content|, draw)
    requires Consistent(content, oracle)
    requires 0 <= draw < FooterStart(content)
    requires var n := FooterStart(content);
             oracle.checksum(Flipped(content, draw)[..n]) == oracle.checksum(content[..n])
    ensures CorruptTarget(name, content, draw, oracle).outcome == Inconclusive
  {
    var n := FooterStart(content);
    assert Flipped(content, draw)[n..] == content[n..];
  }

  /** With a checksum that notices every single-byte change, as CRC-32 does,
      a well-formed file is never skipped: its corruption is always detected. */
  lemma AlwaysDetectedBySingleByteChecksum(name: string, content: seq<Byte>, draw: int, oracle: ChecksumOracle)
    requires ValidDraw(name, |content|, draw)
    requires Consistent(content, oracle)
    requires DetectsSingleByteChanges(oracle.checksum)
    ensures CorruptTarget(name, content, draw, oracle).outcome == Detected
  {
    var a := CorruptTarget(name, content, draw, oracle);
    if a.outcome == Inconclusive {
      InconclusiveMeansCollision(name, content, draw, oracle);
      ReadingAfterOneByteChange(content, draw, a.content[draw], oracle.checksum);
      assert false;
    }
  }

  /** `corruptFile` on the candidate `files`, with the random choices given:
      `pick` is the index `RandomPicks.randomFrom` returns and `draw` the
      number `random.nextInt` returns. An empty list and a path that is not a
      regular file fail before anything is read or written. Otherwise the
      chosen file ends as `CorruptTarget` says, and every file that is not
      the chosen one keeps its bytes. */
  method CorruptFile(files: seq<File>, pick: int, draw: int, oracle: ChecksumOracle) returns (outcome: Outcome)
    requires |files| > 0 ==> 0 <= pick < |files|
    requires |files| > 0 ==> ValidDraw(files[pick].name, files[pick].data.Length, draw)
    modifies set f | f in files :: f.data
    ensures |files| == 0 ==> outcome == Failed(NoFiles)
    ensures |files| > 0 && !files[pick].isRegular ==>
              outcome == Failed(NotARegularFile) && files[pick].data[..] == old(files[pick].data[..])
    ensures |files| > 0 && files[pick].isRegular ==>
              var a := CorruptTarget(files[pick].name, old(files[pick].data[..]), draw, oracle);
              outcome == a.outcome && files[pick].data[..] == a.content
    ensures forall f :: f in files && (|files| == 0 || f.data != files[pick].data) ==> f.data[..] == old(f.data[..])
  {
    if |files| == 0 {
      return Failed(NoFiles);
    }
    var target := files[pick];
    if !target.isRegular {
      return Failed(NotARegularFile);
    }
    var checksumBeforeCorruption := oracle.recorded(target.data[..]);
    if checksumBeforeCorruption.None? {
      return Failed(ChecksumUnreadable);
    }
    var maxPosition := target.data.Length;
    if IsCompoundFile(target.name) && maxPosition > UnverifiedChecksumBytes {
      maxPosition := maxPosition - UnverifiedChecksumBytes;
    }
    var bound := if IntMaxValue < maxPosition then IntMaxValue else maxPosition;
    if bound <= 0 {
      return Failed(NonPositiveBound);
    }
    var position := draw;
    var flip := CorruptAt(target.data, position);
    assert flip.Ok?;
    var reading := ReadFooter(target.data[..], oracle.checksum);
    if reading.Err? {
      return Failed(reading.failure);
    }
    outcome := Verdict(checksumBeforeCorruption.value, reading.value);
  }
}
