/** Copying samples out of a run of atoms when the position advances by a step of samples: the
    reader hunts for the next atom of the circular history buffer that holds a wanted sample. */
module Hunting {
  import opened Arithmetic

  /** Samples at positions pos, pos + step, ... of the atoms, at most count of them. */
  function Wanted<T>(atoms: seq<seq<T>>, size: nat, pos: nat, step: nat, count: nat): (r: seq<T>)
    requires size > 0 && step > 0 && forall k :: 0 <= k < |atoms| ==> |atoms[k]| == size
    ensures |r| <= count
    decreases count
  {
    if count == 0 || pos / size >= |atoms| then []
    else PositionInAtoms(pos, size);
         [atoms[pos / size][pos % size]] + Wanted(atoms, size, pos + step, step, count - 1)
  }

  lemma PositionInAtoms(pos: nat, size: nat)
    requires size > 0
    ensures 0 <= pos / size && 0 <= pos % size < size
  {
  }

  lemma {:induction false} WantedAt<T>(atoms: seq<seq<T>>, size: nat, pos: nat, step: nat, count: nat, k: nat)
    requires size > 0 && step > 0 && forall j :: 0 <= j < |atoms| ==> |atoms[j]| == size
    requires k < |Wanted(atoms, size, pos, step, count)|
    ensures var p := pos + k * step;
            0 <= p / size < |atoms| && 0 <= p % size < size
            && Wanted(atoms, size, pos, step, count)[k] == atoms[p / size][p % size]
    decreases k
  {
    PositionInAtoms(pos, size);
    if k == 0 {
    } else {
      WantedAt(atoms, size, pos + step, step, count - 1, k - 1);
      assert pos + step + (k - 1) * step == pos + k * step;
    }
  }

  /** Nothing is left out: when the positions end inside the atoms, all of them are delivered. */
  lemma {:induction false} WantedAll<T>(atoms: seq<seq<T>>, size: nat, pos: nat, step: nat, count: nat)
    requires size > 0 && step > 0 && forall j :: 0 <= j < |atoms| ==> |atoms[j]| == size
    requires count > 0 ==> pos + (count - 1) * step < size * |atoms|
    ensures |Wanted(atoms, size, pos, step, count)| == count
    decreases count
  {
    if count == 0 {
    } else {
      assert (count - 1) * step >= 0;
      InsideAtoms(pos, size, |atoms|);
      if count > 1 {
        assert pos + step + (count - 2) * step == pos + (count - 1) * step;
      }
      WantedAll(atoms, size, pos + step, step, count - 1);
    }
  }

  lemma InsideAtoms(pos: nat, size: nat, n: nat)
    requires size > 0 && pos < size * n
    ensures pos / size < n
  {
    if pos / size >= n {
      MulLess(size, n, pos / size);
    }
  }

  /** The number of atoms fetched for a request of single steps covers it. */
  lemma RequestIsCovered<T>(atoms: seq<seq<T>>, size: nat, atomOffset: nat, samples: nat)
    requires size > 0 && atomOffset < size && forall j :: 0 <= j < |atoms| ==> |atoms[j]| == size
    requires |atoms| == (samples + atomOffset) / size + 1
    ensures |Wanted(atoms, size, atomOffset, 1, samples)| == samples
  {
    var t := samples + atomOffset;
    assert t == size * (t / size) + t % size;
    Distribute(size, t / size, 1);
    WantedAll(atoms, size, atomOffset, 1, samples);
  }

  /** Two atom numbers less than a ring apart share a ring slot only if they are equal. */
  lemma SameSlot(j: int, n: int, ring: int)
    requires ring > 0 && j <= n < j + ring
    ensures j % ring == n % ring <==> j == n
  {
    if j % ring == n % ring {
      var q := n / ring - j / ring;
      assert n - j == ring * (n / ring) - ring * (j / ring);
      Distribute(ring, n / ring, j / ring);
      assert n - j == ring * q;
      MulSign(ring, q);
      MulSign(ring, -q);
    }
  }

  class Reader<T> {
    const size: nat  // samples in an atom
    const ring: nat  // atoms in the history buffer
    const step: nat
    const wanted: nat
    var slmt: nat
    var atomOffset: nat
    var atomNo: nat
    var user: seq<T>

    constructor (atomSamples: nat, ringAtoms: nat, stepBy: nat, samples: nat, start: nat)
      requires atomSamples > 0 && ringAtoms > 0 && 0 < stepBy <= atomSamples * (ringAtoms - 1) + 1
      ensures size == atomSamples && ring == ringAtoms && step == stepBy && wanted == samples
      ensures slmt == start && user == [] && Params()
    {
      size, ring, step, wanted := atomSamples, ringAtoms, stepBy, samples;
      slmt, user := start, [];
      atomOffset, atomNo := 0, 0;
    }

    /** A step never jumps over a whole turn of the history buffer. */
    ghost predicate Params()
    {
      size > 0 && ring > 0 && 0 < step <= size * (ring - 1) + 1
    }

    /** Atom of the next wanted sample, counted from the first atom. */
    function NextAtom(base: nat): int
      requires size > 0
      reads this`slmt
    {
      slmt / size - base
    }

    /** Before atom j: delivered and wanted samples make up the whole request, and unless it is
        complete the next wanted atom is j or comes within one turn. */
    ghost predicate Progress(atoms: seq<seq<T>>, base: nat, start: nat, j: nat)
      requires Params() && (forall k :: 0 <= k < |atoms| ==> |atoms[k]| == size) && start >= size * base
      reads this
    {
      && slmt >= start && |user| <= wanted
      && atomNo == slmt / size % ring && atomOffset == slmt % size
      && user + Wanted(atoms, size, slmt - size * base, step, wanted - |user|)
         == Wanted(atoms, size, start - size * base, step, wanted)
      && (|user| < wanted ==> j <= NextAtom(base) < j + ring)
    }

    /** Copies the wanted samples of atom j. */
    method CopyFromAtom(atoms: seq<seq<T>>, j: nat, ghost base: nat, ghost target: seq<T>)
      requires Params() && (forall k :: 0 <= k < |atoms| ==> |atoms[k]| == size) && j < |atoms|
      requires slmt == size * (base + j) + atomOffset && atomOffset < size && |user| <= wanted
      requires user + Wanted(atoms, size, size * j + atomOffset, step, wanted - |user|) == target
      modifies this`slmt, this`atomOffset, this`user
      ensures slmt == size * (base + j) + atomOffset && slmt >= old(slmt) && |user| <= wanted
      ensures user + Wanted(atoms, size, size * j + atomOffset, step, wanted - |user|) == target
      ensures |user| < wanted ==> size <= atomOffset < size + step
    {
      while atomOffset < size && |user| < wanted
        invariant slmt == size * (base + j) + atomOffset && slmt >= old(slmt) && |user| <= wanted
        invariant user + Wanted(atoms, size, size * j + atomOffset, step, wanted - |user|) == target
        invariant atomOffset < size + step
        decreases wanted - |user|
      {
        ModUnique(size * j + atomOffset, size, j, atomOffset);
        var x := atoms[j][atomOffset];
        ghost var before := user;
        ghost var rest := Wanted(atoms, size, size * j + (atomOffset + step), step, wanted - |user| - 1);
        assert Wanted(atoms, size, size * j + atomOffset, step, wanted - |user|) == [x] + rest by {
          assert size * j + atomOffset + step == size * j + (atomOffset + step);
        }
        user := user + [x];
        assert before + ([x] + rest) == user + rest;
        atomOffset := atomOffset + step;
        slmt := slmt + step;
      }
    }

    /** The loop over the atoms as they come out of the DMA ring.  Starting at the atom of the first
        wanted sample, it delivers exactly the samples at slmt, slmt + step, ... */
    method Hunt(atoms: seq<seq<T>>, atomOffset0: nat)
      requires Params() && (forall k :: 0 <= k < |atoms| ==> |atoms[k]| == size)
      requires user == [] && atomOffset0 == slmt % size
      modifies this`slmt, this`atomOffset, this`atomNo, this`user
      ensures user == Wanted(atoms, size, atomOffset0, step, wanted)
      ensures |user| < wanted ==> slmt >= size * (old(slmt) / size + |atoms|)
    {
      ghost var start, base := slmt, slmt / size;
      assert start == size * base + start % size;
      var first := (slmt / size) % ring;
      atomNo := first;
      atomOffset := atomOffset0;
      var obAtoms := 0;
      while obAtoms < |atoms|
        invariant 0 <= obAtoms <= |atoms| && Progress(atoms, base, start, obAtoms)
      {
        HuntOne(atoms, obAtoms, first, base, start);
        obAtoms := obAtoms + 1;
      }
      PastTheEnd(atoms, base, start);
    }

    /** Takes aim at the atom of the next wanted sample. */
    method Aim()
      requires Params()
      modifies this`atomNo, this`atomOffset
      ensures atomNo == slmt / size % ring && atomOffset == old(atomOffset) % size
    {
      atomNo := (slmt / size) % ring;
      atomOffset := atomOffset % size;
    }

    method CopyHit(atoms: seq<seq<T>>, j: nat, ghost base: nat, ghost start: nat)
      requires Params() && (forall k :: 0 <= k < |atoms| ==> |atoms[k]| == size) && j < |atoms|
      requires start >= size * base && Progress(atoms, base, start, j)
      requires |user| < wanted && NextAtom(base) == j
      modifies this`slmt, this`atomOffset, this`atomNo, this`user
      ensures Progress(atoms, base, start, j + 1)
    {
      AtHit(base, j);
      ghost var target := Wanted(atoms, size, start - size * base, step, wanted);
      CopyFromAtom(atoms, j, base, target);
      Landing(base, j, atomOffset);
      Aim();
    }

    /** Atom j: copy from it if it carries the number hunted for, then hunt for the next. */
    method HuntOne(atoms: seq<seq<T>>, j: nat, first: nat, ghost base: nat, ghost start: nat)
      requires Params() && (forall k :: 0 <= k < |atoms| ==> |atoms[k]| == size) && j < |atoms|
      requires first == base % ring && start >= size * base && Progress(atoms, base, start, j)
      modifies this`slmt, this`atomOffset, this`atomNo, this`user
      ensures Progress(atoms, base, start, j + 1)
    {
      HitIff(base, j, first);
      if (j + first) % ring == atomNo {
        if |user| < wanted {
          CopyHit(atoms, j, base, start);
        } else {
          AimedAlready();
          Aim();
        }
      }
    }

    lemma AimedAlready()
      requires Params() && atomOffset == slmt % size
      ensures atomOffset % size == atomOffset
    {
      ModUnique(atomOffset, size, 0, atomOffset);
    }

    /** While samples are missing, the slot test finds exactly the wanted atom. */
    lemma HitIff(base: nat, j: nat, first: nat)
      requires Params() && first == base % ring && atomNo == slmt / size % ring
      requires |user| < wanted ==> j <= NextAtom(base) < j + ring
      ensures |user| < wanted ==> ((j + first) % ring == atomNo <==> NextAtom(base) == j)
    {
      var q := base / ring;
      assert base == ring * q + first;
      var t := j + first;
      Distribute(ring, t / ring, q);
      ModUnique(j + base, ring, t / ring + q, t % ring);
      if |user| < wanted {
        SameSlot(j + base, slmt / size, ring);
      }
    }

    lemma AtHit(base: nat, j: nat)
      requires Params() && NextAtom(base) == j && atomOffset == slmt % size
      ensures slmt == size * (base + j) + atomOffset
      ensures slmt - size * base == size * j + atomOffset
    {
      Distribute(size, base, j);
    }

    lemma Landing(base: nat, j: nat, offset: nat)
      requires Params() && slmt == size * (base + j) + offset
      ensures slmt % size == offset % size && slmt - size * base == size * j + offset
      ensures size <= offset < size + step ==> j + 1 <= NextAtom(base) < j + 1 + ring
    {
      var a, w := offset / size, offset % size;
      assert offset == size * a + w;
      Distribute(size, base + j, a);
      Distribute(size, base, j);
      ModUnique(slmt, size, base + j + a, w);
      if size <= offset < size + step {
        if a <= 0 { MulLess(size, a, 0); }
        Distribute(size, ring, 1);
        if a > ring { MulLess(size, ring + 1, a); Distribute(size, ring, 1); }
      }
    }

    lemma PastTheEnd(atoms: seq<seq<T>>, base: nat, start: nat)
      requires Params() && (forall k :: 0 <= k < |atoms| ==> |atoms[k]| == size) && start >= size * base
      requires Progress(atoms, base, start, |atoms|)
      ensures user == Wanted(atoms, size, start - size * base, step, wanted)
      ensures |user| < wanted ==> slmt >= size * (base + |atoms|)
    {
      if |user| < wanted {
        BeyondAtoms(base, |atoms|);
      }
      assert user + [] == user;
    }

    lemma BeyondAtoms(base: nat, n: nat)
      requires Params() && NextAtom(base) >= n
      ensures slmt >= size * (base + n) && (slmt - size * base) / size >= n
    {
      var q := slmt / size;
      assert slmt == size * q + slmt % size;
      MulLess(size, base + n, q);
      Distribute(size, q, base);
      ModUnique(slmt - size * base, size, q - base, slmt % size);
    }
  }
}
