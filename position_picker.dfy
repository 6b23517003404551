/** How `corruptFile` chooses the offset of the byte it corrupts: the file size,
    less a margin for compound files, capped at Java's largest `int`, and a
    draw from the random source below that bound. */
module PositionPicker {
  import opened Outcomes

  /** The extension of Lucene's compound files. */
  const CompoundFileExtension := ".cfs"

  /** The trailing bytes of a compound file that are left alone: the CRC-32
      half of its 8-byte checksum, which the compound reader does not verify. */
  const UnverifiedChecksumBytes := 4

  /** `Integer.MAX_VALUE`. */
  const IntMaxValue := 0x7fff_ffff

  /** Java's `String.endsWith`. */
  predicate EndsWith(s: string, suffix: string)
  {
    |suffix| <= |s| && s[|s| - |suffix|..] == suffix
  }

  predicate IsCompoundFile(name: string)
  {
    EndsWith(name, CompoundFileExtension)
  }

  /** How many trailing bytes of the file are excluded from corruption. */
  function ExclusionMargin(name: string, size: nat): (m: nat)
    ensures m == 0 || m == UnverifiedChecksumBytes
    ensures m > 0 <==> IsCompoundFile(name) && size > UnverifiedChecksumBytes
  {
    if IsCompoundFile(name) && size > UnverifiedChecksumBytes then UnverifiedChecksumBytes else 0
  }

  /** `maxPosition` after the compound-file adjustment. */
  function MaxPosition(name: string, size: nat): (bound: nat)
    ensures bound <= size
    ensures bound == size - UnverifiedChecksumBytes <==> IsCompoundFile(name) && size > UnverifiedChecksumBytes
    ensures bound == size <==> !(IsCompoundFile(name) && size > UnverifiedChecksumBytes)
    ensures bound > 0 <==> size > 0
  {
    size - ExclusionMargin(name, size)
  }

  /** The bound handed to `random.nextInt`: `(int) Math.min(Integer.MAX_VALUE,
      maxPosition)`. `maxPosition` is never negative, so the cast keeps the
      minimum as it is. */
  function DrawBound(name: string, size: nat): (bound: nat)
    ensures bound <= IntMaxValue && bound <= MaxPosition(name, size)
    ensures bound == MaxPosition(name, size) || bound == IntMaxValue
    ensures bound > 0 <==> size > 0
  {
    var maxPosition := MaxPosition(name, size);
    if IntMaxValue < maxPosition then IntMaxValue else maxPosition
  }

  /** `draw` is what `random.nextInt(DrawBound(name, size))` may return,
      whenever that call does not throw. */
  predicate ValidDraw(name: string, size: nat, draw: int)
  {
    DrawBound(name, size) > 0 ==> 0 <= draw < DrawBound(name, size)
  }

  /** The position to corrupt. `nextInt` rejects a bound of 0, which happens
      exactly for an empty file. Otherwise the position lies inside the file,
      below `Integer.MAX_VALUE`, and for a compound file of more than 4 bytes
      outside its last 4 bytes. */
  function PickPosition(name: string, size: nat, draw: int): (r: Result<nat>)
    requires ValidDraw(name, size, draw)
    ensures r.Err? <==> size == 0
    ensures r.Err? ==> r.failure == NonPositiveBound
    ensures r.Ok? ==> r.value < size && r.value < IntMaxValue
    ensures r.Ok? && IsCompoundFile(name) && size > UnverifiedChecksumBytes ==>
              r.value < size - UnverifiedChecksumBytes
  {
    var bound := DrawBound(name, size);
    if bound <= 0 then Err(NonPositiveBound) else Ok(draw)
  }

  /** A compound file of 50 bytes is corrupted somewhere in its first 46. */
  lemma CompoundFileOfFiftyBytes(draw: int)
    requires ValidDraw("archive.cfs", 50, draw)
    ensures DrawBound("archive.cfs", 50) == 46
    ensures PickPosition("archive.cfs", 50, draw) == Ok(draw) && 0 <= draw < 46
  {
  }
}
