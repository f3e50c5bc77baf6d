/** Reading one variant specification such as "rotation-1": the text is split
    at '-', the first part names the kind of variant and, for a rotation, the
    second part is the number of quarter turns. */
module Variants {
  import opened Wrappers
  import opened Tiles

  /** Why a catalog cannot be built. */
  datatype CatalogError =
    | MissingRotationTurns(variant: string)   // "rotation" with nothing after it
    | BadRotationTurns(variant: string)       // the turn count is not a number
    | TooFewSides(variant: string)            // the base tile has fewer than four codes

  /** `s.split(sep)`: the pieces between the separators, in order. */
  function Split(s: string, sep: char): (parts: seq<string>)
    ensures |parts| >= 1
    ensures forall p :: p in parts ==> sep !in p
  {
    if s == [] then [""]
    else
      var rest := Split(s[1..], sep);
      if s[0] == sep then [""] + rest
      else [[s[0]] + rest[0]] + rest[1..]
  }

  /** `sep.join(parts)`: the pieces glued back together. */
  function Join(parts: seq<string>, sep: char): (s: string)
    requires |parts| >= 1
    ensures |s| >= |parts| - 1
  {
    if |parts| == 1 then parts[0] else parts[0] + [sep] + Join(parts[1..], sep)
  }

  /** Splitting loses nothing: joining the pieces gives back the text. */
  lemma {:induction false} JoinSplit(s: string, sep: char)
    ensures Join(Split(s, sep), sep) == s
  {
    if s != [] {
      var rest := Split(s[1..], sep);
      JoinSplit(s[1..], sep);
      if s[0] != sep && |rest| > 1 {
        assert ([[s[0]] + rest[0]] + rest[1..])[1..] == rest[1..];
      }
    }
  }

  /** Splitting a text that starts with a piece without separators. */
  lemma {:induction false} SplitAfterPiece(p: string, t: string, sep: char)
    requires sep !in p
    ensures Split(p + t, sep) == [p + Split(t, sep)[0]] + Split(t, sep)[1..]
  {
    if p != [] {
      var first := Split(t, sep)[0];
      assert (p + t)[0] == p[0] && p[0] in p;
      assert (p + t)[1..] == p[1..] + t;
      SplitAfterPiece(p[1..], t, sep);
      var rest := Split(p[1..] + t, sep);
      assert rest[0] == p[1..] + first;
      assert rest[1..] == Split(t, sep)[1..];
      assert Split(p + t, sep) == [[p[0]] + rest[0]] + rest[1..];
      assert [p[0]] + (p[1..] + first) == p + first;
    } else {
      var s := Split(t, sep);
      assert p + t == t && p + s[0] == s[0];
      assert s == [s[0]] + s[1..];
    }
  }

  /** Pieces without separators are recovered by splitting their join. */
  lemma {:induction false} SplitJoin(parts: seq<string>, sep: char)
    requires |parts| >= 1
    requires forall p :: p in parts ==> sep !in p
    ensures Split(Join(parts, sep), sep) == parts
  {
    if |parts| == 1 {
      SplitAfterPiece(parts[0], [], sep);
      assert parts[0] + [] == parts[0];
    } else {
      var tail := Join(parts[1..], sep);
      assert forall p :: p in parts[1..] ==> p in parts;
      SplitJoin(parts[1..], sep);
      assert parts[0] + [sep] + tail == parts[0] + ([sep] + tail);
      SplitAfterPiece(parts[0], [sep] + tail, sep);
      assert ([sep] + tail)[0] == sep && ([sep] + tail)[1..] == tail;
      assert Split([sep] + tail, sep) == [""] + parts[1..];
      assert parts[0] + "" == parts[0];
      assert parts == [parts[0]] + parts[1..];
    }
  }

  predicate IsDigit(c: char) {
    '0' <= c <= '9'
  }

  predicate AllDigits(s: string) {
    forall k :: 0 <= k < |s| ==> IsDigit(s[k])
  }

  /** The number written in decimal by a string of digits. */
  function DigitsValue(s: string): nat
    requires AllDigits(s)
  {
    if s == [] then 0
    else DigitsValue(s[..|s| - 1]) * 10 + (s[|s| - 1] as int - '0' as int)
  }

  /** `int(s)` for the decimal strings this model accepts: a non-empty run of
      ASCII digits; anything else makes `int` raise. */
  function ParseDigits(s: string): (r: Option<nat>)
    ensures r.Some? <==> s != [] && AllDigits(s)
  {
    if s != [] && AllDigits(s) then Some(DigitsValue(s)) else None
  }

  /** `str(n)`: the decimal digits of `n`. */
  function ShowNat(n: nat): (s: string)
    ensures s != [] && AllDigits(s)
  {
    if n < 10 then [('0' as int + n) as char]
    else ShowNat(n / 10) + [('0' as int + n % 10) as char]
  }

  /** Parsing the decimal digits of a number gives back the number. */
  lemma {:induction false} ParseShow(n: nat)
    ensures ParseDigits(ShowNat(n)) == Some(n)
  {
    var s := ShowNat(n);
    var d := ('0' as int + n % 10) as char;
    assert d as int - '0' as int == n % 10;
    if n >= 10 {
      ParseShow(n / 10);
      assert s[..|s| - 1] == ShowNat(n / 10);
      assert s[|s| - 1] == d;
      assert DigitsValue(s) == n / 10 * 10 + n % 10;
    } else {
      assert s == [d] && s[..0] == [];
      assert DigitsValue(s) == n;
    }
  }

  /** The kind of a variant specification: the text before the first '-'. */
  function Kind(variant: string): string {
    Split(variant, '-')[0]
  }

  /** The tile that one variant specification adds after its base tile: `None`
      for a kind other than "rotation", the base tile turned by `k` quarter
      turns for "rotation-k", and an error where the original program raises. */
  function VariantOf(base: Tile, variant: string): (r: Result<Option<Tile>, CatalogError>)
    ensures Kind(variant) != "rotation" ==> r == Ok(None)
    ensures Kind(variant) == "rotation" ==> r != Ok(None)
    ensures r.Ok? && r.value.Some? ==>
              HasFourSides(base) && exists k: nat :: r.value.value == RotateTile(base, k)
  {
    var parts := Split(variant, '-');
    if parts[0] != "rotation" then Ok(None)
    else if |parts| < 2 then Err(MissingRotationTurns(variant))
    else match ParseDigits(parts[1])
      case None => Err(BadRotationTurns(variant))
      case Some(k) =>
        if !HasFourSides(base) then Err(TooFewSides(variant))
        else Ok(Some(RotateTile(base, k)))
  }

  /** "rotation-k" written out for a number `k` yields the base tile turned by
      `k` quarter turns. */
  lemma RotationSpecYieldsRotation(base: Tile, k: nat)
    requires HasFourSides(base)
    ensures VariantOf(base, "rotation-" + ShowNat(k)) == Ok(Some(RotateTile(base, k)))
  {
    var parts := ["rotation", ShowNat(k)];
    forall p | p in parts ensures '-' !in p {
      if p == ShowNat(k) {
        assert forall j :: 0 <= j < |p| ==> IsDigit(p[j]);
      }
    }
    assert Join(parts, '-') == "rotation-" + ShowNat(k);
    SplitJoin(parts, '-');
    ParseShow(k);
  }
}
