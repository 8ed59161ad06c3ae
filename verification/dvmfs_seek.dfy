/**
 How the video recorder's file layer finds a stream position among the
 sub-files of a stream that wraps around.
 */
module DvmfsSeek {
  import opened Words
  import opened Wide
  import opened DvmfsSizes
  import StdvmST40

  /** What is left of position p once sizes are taken off it while it is larger
      than one. */
  function Wrapped(p: nat, size: nat): nat
    requires size > 0 || p == 0
  {
    if p == 0 then 0 else (p - 1) % size + 1
  }

  /** Takes whole streams off a position. For size 0 the loop ends only at
      position 0. */
  method WrapPosition(pos: U64, size: U64)
    requires pos != size
    requires size.Val() != 0 || pos.Val() == 0
    modifies pos
    ensures pos.Val() == Wrapped(old(pos.Val()), size.Val())
  {
    while IsGreaterThan(pos, size)
      invariant size.Val() == old(size.Val())
      invariant size.Val() != 0 || pos.Val() == 0
      invariant Wrapped(pos.Val(), size.Val()) == Wrapped(old(pos.Val()), size.Val())
      decreases pos.Val()
    {
      WrapsAlike(pos.Val(), size.Val());
      Sub(pos, size, pos);
    }
    WithinSize(pos.Val(), size.Val());
  }

  lemma WrapsAlike(p: nat, size: nat)
    requires 0 < size < p
    ensures Wrapped(p - size, size) == Wrapped(p, size)
  {
    ModIgnoresMultiples(p - size - 1, 1, size);
  }

  lemma WithinSize(p: nat, size: nat)
    requires p <= size
    ensures Wrapped(p, size) == p
  {
    if p > 0 {
      QuotientUnique(p - 1, size, 0, p - 1);
    }
  }

  /** The loop is meant to leave the remainder. It does, except at the positive
      multiples of the size, where it leaves the size itself. */
  lemma WrappedIsRemainderIff(p: nat, size: nat)
    requires size > 0
    ensures Wrapped(p, size) == p % size <==> p == 0 || p % size != 0
    ensures p > 0 && p % size == 0 ==> Wrapped(p, size) == size
  {
    var k, low := p / size, p % size;
    if p == 0 {
      QuotientUnique(0, size, 0, 0);
    } else if low > 0 {
      QuotientUnique(p - 1, size, k, low - 1);
    } else {
      Distribute(size, k, -1);
      QuotientUnique(p - 1, size, k - 1, size - 1);
    }
  }

  /** Counts sub-files off a position, a word at a time with a borrow made by
      hand. The search ends at the file that holds the position, with the
      offset in it left, exactly when the stream has that file. */
  method FindFile(pos: U64, start: U32, nbOfFiles: U32, subFileSize: U32) returns (fileNb: U32)
    requires subFileSize != 0
    modifies pos
    ensures fileNb < nbOfFiles <==> start + old(pos.Val()) / subFileSize < nbOfFiles
    ensures fileNb < nbOfFiles ==>
            && fileNb == start + old(pos.Val()) / subFileSize
            && pos.MSW == 0 && pos.LSW == old(pos.Val()) % subFileSize
    ensures fileNb >= nbOfFiles ==>
            && fileNb == (if start <= nbOfFiles then nbOfFiles else start)
            && old(pos.Val()) == subFileSize * (fileNb - start) + pos.Val()
  {
    ghost var whole := pos.Val();
    fileNb := start;
    while fileNb < nbOfFiles
      invariant start <= fileNb && (fileNb <= nbOfFiles || fileNb == start)
      invariant whole == subFileSize * (fileNb - start) + pos.Val()
      decreases nbOfFiles - fileNb
    {
      if pos.LSW < subFileSize {
        if pos.MSW == 0 {
          QuotientUnique(whole, subFileSize, fileNb - start, pos.LSW);
          return;
        }
        pos.MSW := pos.MSW - 1;
        pos.LSW := (pos.LSW + (0xFFFF_FFFF - subFileSize) + 1) % WORD;
      } else {
        pos.LSW := pos.LSW - subFileSize;
      }
      Distribute(subFileSize, fileNb - start, 1);
      fileNb := fileNb + 1;
    }
    ModIgnoresMultiples(pos.Val(), fileNb - start, subFileSize);
    DivShrinks(pos.Val(), subFileSize);
  }

  datatype Spot = NotFound | Found(file: nat, offset: nat)

  /** Where a seek in a circular stream ends up. A stream that has wrapped has a
      start position other than 0. */
  function CircularSpot(p: nat, start: nat, size: nat, nbOfFiles: nat, subFileSize: nat): Spot
    requires size > 0 && subFileSize > 0
  {
    if start != 0 && p > Plus(start, size) then NotFound
    else
      var left := if start != 0 then Wrapped(p, size) else p;
      if left > size || left / subFileSize >= nbOfFiles then NotFound
      else
        DivShrinks(left, subFileSize);
        Found(left / subFileSize, left % subFileSize)
  }

  /** The file and the offset that make up position p, if there are that many
      files; otherwise nothing. */
  predicate IsSpotOf(spot: Spot, p: nat, nbOfFiles: nat, subFileSize: nat) {
    match spot
    case NotFound => p >= nbOfFiles * subFileSize
    case Found(file, offset) => file < nbOfFiles && offset < subFileSize && p == file * subFileSize + offset
  }

  lemma SplitAt(p: nat, nbOfFiles: nat, subFileSize: nat)
    requires subFileSize > 0
    ensures 0 <= p / subFileSize
    ensures IsSpotOf(if p / subFileSize >= nbOfFiles then NotFound
                     else Found(p / subFileSize, p % subFileSize), p, nbOfFiles, subFileSize)
  {
    DivShrinks(p, subFileSize);
    var file := p / subFileSize;
    if file >= nbOfFiles {
      MulMonotone(nbOfFiles, file, subFileSize);
    }
  }

  /** In a stream that has not wrapped, every position up to the size is looked
      up as it is, and none beyond. */
  lemma SpotUnwrapped(p: nat, size: nat, nbOfFiles: nat, subFileSize: nat)
    requires size > 0 && subFileSize > 0
    ensures p <= size ==> IsSpotOf(CircularSpot(p, 0, size, nbOfFiles, subFileSize), p, nbOfFiles, subFileSize)
    ensures p > size ==> CircularSpot(p, 0, size, nbOfFiles, subFileSize) == NotFound
  {
    SplitAt(p, nbOfFiles, subFileSize);
  }

  /** In one that has, positions up to its end are looked up modulo the size,
      the positive multiples as the size itself, and none beyond. */
  lemma SpotWrapped(p: nat, start: nat, size: nat, nbOfFiles: nat, subFileSize: nat)
    requires size > 0 && subFileSize > 0
    ensures start != 0 && p <= Plus(start, size) ==>
            IsSpotOf(CircularSpot(p, start, size, nbOfFiles, subFileSize),
                     if p > 0 && p % size == 0 then size else p % size, nbOfFiles, subFileSize)
    ensures start != 0 && p > Plus(start, size) ==>
            CircularSpot(p, start, size, nbOfFiles, subFileSize) == NotFound
  {
    WrappedIsRemainderIff(p, size);
    var left := if p > 0 && p % size == 0 then size else p % size;
    SplitAt(left, nbOfFiles, subFileSize);
  }

  /** The seek itself, in place on the position. */
  method SeekInCircular(pos: U64, startPos: U64, size: U64, nbOfFiles: U32, subFileSize: U32) returns (spot: Spot)
    requires pos != startPos && pos != size
    requires size.Val() != 0 && subFileSize != 0
    modifies pos
    ensures spot == CircularSpot(old(pos.Val()), startPos.Val(), size.Val(), nbOfFiles, subFileSize)
    ensures old(startPos.Val()) == 0 && old(pos.Val()) <= size.Val() ==>
            IsSpotOf(spot, old(pos.Val()), nbOfFiles, subFileSize)
    ensures old(startPos.Val()) == 0 && old(pos.Val()) > size.Val() ==> spot == NotFound
    ensures old(startPos.Val()) != 0 && old(pos.Val()) <= Plus(startPos.Val(), size.Val()) ==>
            var p, z := old(pos.Val()), size.Val();
            IsSpotOf(spot, if p > 0 && p % z == 0 then z else p % z, nbOfFiles, subFileSize)
    ensures old(startPos.Val()) != 0 && old(pos.Val()) > Plus(startPos.Val(), size.Val()) ==> spot == NotFound
  {
    SpotUnwrapped(pos.Val(), size.Val(), nbOfFiles, subFileSize);
    SpotWrapped(pos.Val(), startPos.Val(), size.Val(), nbOfFiles, subFileSize);
    if !IsZero(startPos) {
      var temp := new U64();
      StdvmST40.Add(startPos, size, temp);
      if IsGreaterThan(pos, temp) {
        return NotFound;
      }
      WrapPosition(pos, size);
    }
    if IsGreaterThan(pos, size) {
      return NotFound;
    }
    var fileNb := FindFile(pos, 0, nbOfFiles, subFileSize);
    spot := if fileNb >= nbOfFiles then NotFound else Found(fileNb, pos.LSW);
  }

  /** In a wrapped stream with just the files that it needs, a seek finds the
      byte that the position means, modulo the size, except at the positive
      multiples of the size. There it misses the first byte: it fails if the
      last file is full, and otherwise stops behind that file's last byte. */
  lemma CircularSeekIff(p: nat, start: nat, size: nat, nbOfFiles: nat, subFileSize: nat)
    requires start != 0 && p <= Plus(start, size)
    requires size > 0 && subFileSize > 0 && Fewest(nbOfFiles, size, subFileSize)
    ensures 0 <= (p % size) / subFileSize
    ensures CircularSpot(p, start, size, nbOfFiles, subFileSize) ==
            Found((p % size) / subFileSize, (p % size) % subFileSize) <==>
            p == 0 || p % size != 0
    ensures p > 0 && p % size == 0 ==>
            CircularSpot(p, start, size, nbOfFiles, subFileSize) ==
            if size % subFileSize == 0 then NotFound else Found(nbOfFiles - 1, size % subFileSize)
  {
    WrappedIsRemainderIff(p, size);
    DivShrinks(p % size, subFileSize);
    if p == 0 || p % size != 0 {
      FileExists(p % size, size, nbOfFiles, subFileSize);
    } else {
      LastFile(size, nbOfFiles, subFileSize);
    }
  }

  lemma FileExists(p: nat, size: nat, nbOfFiles: nat, subFileSize: nat)
    requires p < size && subFileSize > 0 && Fewest(nbOfFiles, size, subFileSize)
    ensures p / subFileSize < nbOfFiles
  {
    if p / subFileSize >= nbOfFiles {
      MulMonotone(nbOfFiles, p / subFileSize, subFileSize);
    }
  }

  lemma LastFile(size: nat, nbOfFiles: nat, subFileSize: nat)
    requires size > 0 && subFileSize > 0 && Fewest(nbOfFiles, size, subFileSize)
    ensures nbOfFiles >= 1
    ensures size / subFileSize == if size % subFileSize == 0 then nbOfFiles else nbOfFiles - 1
  {
    var n := nbOfFiles;
    Distribute(subFileSize, n, -1);
    if size < n * subFileSize {
      QuotientUnique(size, subFileSize, n - 1, size - (n - 1) * subFileSize);
    } else {
      QuotientUnique(size, subFileSize, n, 0);
    }
  }
}
