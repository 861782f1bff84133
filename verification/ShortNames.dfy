/** The buffer-filling forms of the name functions: what the driver executes, proved to compute them. */
module ShortNames {
  import opened Bytes
  import opened Names

  method FindLastDot(name: Name) returns (dot: int)
    ensures dot == LastDot(name)
  {
    dot := -1;
    var i := |name| - 1;
    while i >= 0
      invariant -1 <= i < |name|
      invariant LastDot(name) == LastDot(name[..i + 1])
    {
      assert name[..i + 1][..i] == name[..i];
      if name[i] == DOT {
        return i;
      }
      i := i - 1;
    }
    assert name[..0] == [];
  }

  method FillSpaces(out: array<Byte>)
    modifies out
    ensures forall k | 0 <= k < out.Length :: out[k] == SPACE
  {
    var n := 0;
    while n < out.Length
      invariant 0 <= n <= out.Length
      invariant forall k | 0 <= k < n :: out[k] == SPACE
    {
      out[n] := SPACE;
      n := n + 1;
    }
  }

  /** Writes the base characters of the short form at the front of `out`. */
  method WriteStem(name: Name, dot: int, max: nat, out: array<Byte>) returns (ni: nat)
    requires max <= out.Length && dot == LastDot(name)
    modifies out
    ensures ni == |Stem(name, max)|
    ensures forall k | 0 <= k < ni :: out[k] == Stem(name, max)[k]
    ensures forall k | ni <= k < out.Length :: out[k] == old(out[k])
  {
    ni := 0;
    ghost var acc: seq<Byte> := [];
    var i := 0;
    while i < |name| && ni < max
      invariant 0 <= i <= |name| && ni == |acc| <= max
      invariant forall k | 0 <= k < ni :: out[k] == acc[k] && acc[k] != SPACE && acc[k] != DOT
      invariant StemFrom(name, i, dot, max, acc) == Stem(name, max)
      invariant forall k | ni <= k < out.Length :: out[k] == old(out[k])
    {
      if i == dot {
        break;
      }
      var c := Upper(name[i]);
      if c == SPACE || c == DOT {
        i := i + 1;
        continue;
      }
      out[ni] := c;
      acc := acc + [c];
      ni := ni + 1;
      i := i + 1;
    }
  }

  /** Writes the extension characters behind the last dot, if there is one. */
  method WriteExtension(name: Name, dot: int, out: array<Byte>)
    requires out.Length == 11 && dot == LastDot(name)
    requires forall k | 8 <= k < 11 :: out[k] == SPACE
    modifies out
    ensures forall k | 0 <= k < 8 :: out[k] == old(out[k])
    ensures forall k | 8 <= k < 11 :: out[k] == Pad(Extension(name), 3)[k - 8]
  {
    if dot >= 0 {
      var ei := 8;
      var i := dot + 1;
      while i < |name| && ei < 11
        invariant i - dot - 1 == ei - 8 && 8 <= ei <= 8 + |Extension(name)|
        invariant forall k | 8 <= k < ei :: out[k] == Extension(name)[k - 8]
        invariant forall k | ei <= k < 11 :: out[k] == SPACE
        invariant forall k | 0 <= k < 8 :: out[k] == old(out[k])
      {
        out[ei] := Upper(name[i]);
        ei := ei + 1;
        i := i + 1;
      }
    }
  }

  method WriteMake83(name: Name, out: array<Byte>)
    requires out.Length == 11
    modifies out
    ensures out[..] == Make83(name)
  {
    hide Extension, Upper, Stem, LastDot;
    FillSpaces(out);
    var dot := FindLastDot(name);
    var ni := WriteStem(name, dot, 8, out);
    WriteExtension(name, dot, out);
    assert |out[..]| == |Make83(name)| && forall k | 0 <= k < 11 :: out[..][k] == Make83(name)[k];
  }

  /** The decimal digits of `n` as the conversion loop produces them, least significant first. */
  method ToDigits(n: nat) returns (digits: seq<Byte>)
    ensures digits == LowDigits(n)
  {
    digits := [48 + n % 10];
    var tmp := n / 10;
    while tmp > 0
      invariant LowDigits(n) == if tmp > 0 then digits + LowDigits(tmp) else digits
    {
      assert digits + ([48 + tmp % 10] + LowDigits(tmp / 10)) == (digits + [48 + tmp % 10]) + LowDigits(tmp / 10);
      digits := digits + [48 + tmp % 10];
      tmp := tmp / 10;
    }
  }

  /** Writes the `n`th numbered variant; `ext` is the extension field of the plain form. */
  method WriteNumbered(name: Name, n: nat, ext: seq<Byte>, out: array<Byte>)
    requires out.Length == 11 && 1 <= n <= 9999
    requires ext == Pad(Extension(name), 3)
    modifies out
    ensures out[..] == Numbered(name, n)
  {
    hide Extension, Upper, Stem, LastDot, LowDigits;
    var digits := ToDigits(n);
    var dlen := |digits|;
    var suffixLen := 1 + dlen;
    var stemMax := 8 - suffixLen;
    FillSpaces(out);
    var dot := FindLastDot(name);
    var ni := WriteStem(name, dot, stemMax, out);
    ghost var base := NumberedBase(name, n);
    ghost var m := ni;
    out[ni] := TILDE;
    ni := ni + 1;
    var d := dlen - 1;
    while d >= 0
      invariant -1 <= d < dlen && ni == m + dlen - d
      invariant forall k | 0 <= k < ni :: out[k] == base[k]
      invariant forall k | ni <= k < 11 :: out[k] == SPACE
    {
      assert base[ni] == Decimal(n)[dlen - 1 - d] == digits[d];
      out[ni] := digits[d];
      ni := ni + 1;
      d := d - 1;
    }
    out[8], out[9], out[10] := ext[0], ext[1], ext[2];
    assert |out[..]| == |Numbered(name, n)| && forall k | 0 <= k < 11 :: out[..][k] == Numbered(name, n)[k];
  }
}
