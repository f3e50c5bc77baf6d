/** Tiles and their edge codes: reversal of an edge code, the compatibility test
    between two tiles across a shared edge, and the rotation re-indexing used to
    derive tile variants. Directions are 0 = north, 1 = east, 2 = south, 3 = west. */
module Tiles {

  /** The picture of a tile. Its pixels are never inspected; the model only keeps
      track of where a picture comes from and how it was rotated. */
  datatype Image = Opened(path: string) | Rotated(source: Image, degrees: int)

  /** A tile: one edge code per direction (`codeSides`) and its picture. */
  datatype Tile = Tile(codeSides: seq<string>, img: Image)

  /** A tile can be placed on the board when it has a code for each of the
      four directions (extra codes are never looked at). */
  predicate HasFourSides(t: Tile) {
    |t.codeSides| >= 4
  }

  /** The direction opposite to `i`. */
  function Opposite(i: nat): (j: nat)
    requires i < 4
    ensures j < 4 && j != i
    ensures (j + 2) % 4 == i
  {
    (i + 2) % 4
  }

  /** An edge code read backwards (`code[::-1]`). */
  function Reverse(s: string): (r: string)
    ensures |r| == |s|
    ensures forall k :: 0 <= k < |s| ==> r[k] == s[|s| - 1 - k]
  {
    if s == [] then [] else Reverse(s[1..]) + [s[0]]
  }

  lemma ReverseInvolution(s: string)
    ensures Reverse(Reverse(s)) == s
  {
  }

  /** `t` fits next to `n` when `n` lies in direction `i` from `t`: the code of `n`
      on the side facing `t` is the reverse of the code of `t` on side `i`. */
  predicate Fits(t: Tile, i: nat, n: Tile)
    requires i < 4 && HasFourSides(t) && HasFourSides(n)
  {
    n.codeSides[Opposite(i)] == Reverse(t.codeSides[i])
  }

  /** Edge symmetry: `t` fits `n` in direction `i` exactly when `n` fits `t` in
      the opposite direction, because reversal is an involution. */
  lemma FitsSymmetric(t: Tile, i: nat, n: Tile)
    requires i < 4 && HasFourSides(t) && HasFourSides(n)
    ensures Fits(t, i, n) <==> Fits(n, Opposite(i), t)
    ensures Fits(t, i, n) <==> t.codeSides[i] == Reverse(n.codeSides[Opposite(i)])
  {
    ReverseInvolution(t.codeSides[i]);
    ReverseInvolution(n.codeSides[Opposite(i)]);
  }

  /** The edge codes of a tile turned by `k` quarter turns:
      `new[i] = old[(i - k) mod 4]` for the four directions. */
  function Rotate(sides: seq<string>, k: int): (r: seq<string>)
    requires |sides| >= 4
    ensures |r| == 4
  {
    seq(4, i requires 0 <= i < 4 => sides[(i - k) % 4])
  }

  /** The rotated tile: rotated codes and the picture turned by -90*k degrees. */
  function RotateTile(t: Tile, k: int): (r: Tile)
    requires HasFourSides(t)
    ensures HasFourSides(r) && |r.codeSides| == 4
  {
    Tile(Rotate(t.codeSides, k), Rotated(t.img, -90 * k))
  }

  /** Adding whole turns does not change a direction taken modulo 4. */
  lemma ModShift(x: int, q: int)
    ensures (x + 4 * q) % 4 == x % 4
  {
    var r, d := x % 4, x / 4;
    assert x + 4 * q == r + 4 * (d + q);
  }

  /** Taking a direction modulo 4 before or after subtracting gives the same. */
  lemma ModSub(x: int, a: int)
    ensures (x % 4 - a) % 4 == (x - a) % 4
  {
    ModShift(x - a, -(x / 4));
    assert x % 4 - a == x - a + 4 * -(x / 4);
  }

  lemma RotateAt(sides: seq<string>, k: int, i: int)
    requires |sides| >= 4 && 0 <= i < 4
    ensures Rotate(sides, k)[i] == sides[(i - k) % 4]
  {
  }

  /** Where a code ends up: the code on side `i` moves to side `(i + k) mod 4`. */
  lemma RotateMoves(sides: seq<string>, k: int, i: nat)
    requires |sides| >= 4 && i < 4
    ensures Rotate(sides, k)[(i + k) % 4] == sides[i]
  {
    RotateAt(sides, k, (i + k) % 4);
    ModSub(i + k, k);
  }

  /** Rotating by `a` then by `b` quarter turns is rotating by `a + b`. */
  lemma RotateCompose(sides: seq<string>, a: int, b: int)
    requires |sides| >= 4
    ensures Rotate(Rotate(sides, a), b) == Rotate(sides, a + b)
  {
    var once := Rotate(sides, a);
    forall i | 0 <= i < 4
      ensures Rotate(once, b)[i] == Rotate(sides, a + b)[i]
    {
      RotateAt(once, b, i);
      RotateAt(sides, a, (i - b) % 4);
      RotateAt(sides, a + b, i);
      ModSub(i - b, a);
    }
  }

  /** Only the number of quarter turns modulo 4 matters. */
  lemma RotatePeriodic(sides: seq<string>, k: int)
    requires |sides| >= 4
    ensures Rotate(sides, k) == Rotate(sides, k % 4)
  {
    forall i | 0 <= i < 4
      ensures Rotate(sides, k)[i] == Rotate(sides, k % 4)[i]
    {
      RotateAt(sides, k, i);
      RotateAt(sides, k % 4, i);
      ModShift(i - k, k / 4);
      assert i - k % 4 == i - k + 4 * (k / 4);
    }
  }

  /** Four quarter turns give back the original four codes, whether done as one
      rotation by 4 or as four rotations by 1. */
  lemma {:induction false} RotateFullTurn(sides: seq<string>)
    requires |sides| == 4
    ensures Rotate(sides, 4) == sides
    ensures Rotate(Rotate(Rotate(Rotate(sides, 1), 1), 1), 1) == sides
  {
    RotatePeriodic(sides, 4);
    assert Rotate(sides, 0) == sides;
    RotateCompose(sides, 1, 1);
    RotateCompose(sides, 2, 1);
    RotateCompose(sides, 3, 1);
  }

  /** One quarter turn moves the west code to the front. */
  lemma RotateOnePermutes(sides: seq<string>)
    requires |sides| == 4
    ensures multiset(Rotate(sides, 1)) == multiset(sides)
  {
    var r := Rotate(sides, 1);
    forall i | 0 <= i < 4 ensures r[i] == ([sides[3]] + sides[..3])[i] {
      RotateAt(sides, 1, i);
    }
    assert r == [sides[3]] + sides[..3];
    assert sides == sides[..3] + [sides[3]];
  }

  /** `m` quarter turns only rearrange the four codes. */
  lemma {:induction false} RotateTurnsPermute(sides: seq<string>, m: nat)
    requires |sides| == 4
    ensures multiset(Rotate(sides, m)) == multiset(sides)
  {
    if m == 0 {
      forall i | 0 <= i < 4 ensures Rotate(sides, 0)[i] == sides[i] {
        RotateAt(sides, 0, i);
      }
      assert Rotate(sides, 0) == sides;
    } else {
      var p := Rotate(sides, m - 1);
      RotateTurnsPermute(sides, m - 1);
      RotateCompose(sides, m - 1, 1);
      RotateOnePermutes(p);
      assert Rotate(p, 1) == Rotate(sides, m);
    }
  }

  /** A rotation only rearranges the four codes. */
  lemma RotatePermutes(sides: seq<string>, k: int)
    requires |sides| == 4
    ensures multiset(Rotate(sides, k)) == multiset(sides)
  {
    RotatePeriodic(sides, k);
    RotateTurnsPermute(sides, k % 4);
  }

  /** Turning two adjacent tiles together keeps them compatible: if `t` fits `n`
      in direction `i`, the turned `t` fits the turned `n` in the turned direction. */
  lemma RotationKeepsFit(t: Tile, n: Tile, i: nat, k: int)
    requires i < 4 && HasFourSides(t) && HasFourSides(n)
    ensures Fits(t, i, n) <==> Fits(RotateTile(t, k), (i + k) % 4, RotateTile(n, k))
  {
    var j := (i + k) % 4;
    RotateMoves(t.codeSides, k, i);
    RotateMoves(n.codeSides, k, Opposite(i));
    assert Opposite(j) == (Opposite(i) + k) % 4 by {
      ModShift(i + k + 2, -((i + k) / 4));
      ModShift(i + k + 2, -((i + 2) / 4));
    }
  }
}
