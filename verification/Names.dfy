/** File names: the short 8.3 form, its numbered variants, and the checksum that ties long-name records to it. */
module Names {
  import opened Bytes

  type Name = seq<Byte>
  type Short = s: seq<Byte> | |s| == 11 witness seq(11, _ => 0)

  const SPACE: Byte := 32
  const DOT: Byte := 46
  const TILDE: Byte := 126
  const DELETED: Byte := 0xE5
  const MAX_NAME: nat := 256

  function Upper(c: Byte): Byte {
    if 97 <= c <= 122 then c - 32 else c
  }

  /** Names equal up to the case of ASCII letters name the same file. */
  function Fold(name: Name): (f: Name)
    ensures |f| == |name|
    ensures forall i {:trigger f[i]} :: 0 <= i < |name| ==> f[i] == Upper(name[i])
  {
    seq(|name|, i requires 0 <= i < |name| => Upper(name[i]))
  }

  /** The same byte, or an ASCII letter once as a capital and once 32 higher. */
  predicate SameLetter(a: Byte, b: Byte) {
    a == b || (65 <= a <= 90 && b == a + 32) || (65 <= b <= 90 && a == b + 32)
  }

  /** Names that name the same file: equal but for the case of ASCII letters. */
  predicate SameName(a: Name, b: Name) {
    |a| == |b| && forall i {:trigger a[i]} {:trigger b[i]} :: 0 <= i < |a| ==> SameLetter(a[i], b[i])
  }

  /** Folding identifies exactly the names that are equal but for case. */
  lemma FoldExactly(a: Name, b: Name)
    ensures Fold(a) == Fold(b) <==> SameName(a, b)
  {
    if Fold(a) == Fold(b) {
      forall i {:trigger a[i]} | 0 <= i < |a|
        ensures SameLetter(a[i], b[i])
      {
        assert Fold(a)[i] == Fold(b)[i];
      }
    }
  }

  /** The index of the last dot, or -1. */
  function LastDot(name: Name): (d: int)
    ensures -1 <= d < |name|
    ensures d >= 0 ==> name[d] == DOT
    ensures forall i {:trigger name[i]} :: d < i < |name| ==> name[i] != DOT
  {
    if name == [] then -1
    else if name[|name| - 1] == DOT then |name| - 1
    else LastDot(name[..|name| - 1])
  }

  /** `acc` followed by the upper-cased characters from `i` on, up to `dot` and to `max` characters in all, without
      spaces and dots. */
  function StemFrom(name: Name, i: nat, dot: int, max: nat, acc: seq<Byte>): (s: seq<Byte>)
    requires i <= |name| && |acc| <= max
    requires forall k {:trigger acc[k]} :: 0 <= k < |acc| ==> acc[k] != SPACE && acc[k] != DOT
    ensures |s| <= max
    ensures forall k {:trigger s[k]} :: 0 <= k < |s| ==> s[k] != SPACE && s[k] != DOT
    decreases |name| - i
  {
    if i == |name| || |acc| == max || i == dot then acc
    else
      var c := Upper(name[i]);
      StemFrom(name, i + 1, dot, max, if c == SPACE || c == DOT then acc else acc + [c])
  }

  function Stem(name: Name, max: nat): (s: seq<Byte>)
    ensures |s| <= max
    ensures forall k {:trigger s[k]} :: 0 <= k < |s| ==> s[k] != SPACE && s[k] != DOT
  {
    StemFrom(name, 0, LastDot(name), max, [])
  }

  function Pad(s: seq<Byte>, n: nat): (p: seq<Byte>)
    requires |s| <= n
    ensures |p| == n
    ensures forall k {:trigger p[k]} :: 0 <= k < n ==> p[k] == if k < |s| then s[k] else SPACE
  {
    s + seq(n - |s|, _ => SPACE)
  }

  function Extension(name: Name): (e: seq<Byte>)
    ensures |e| <= 3
  {
    var dot := LastDot(name);
    if dot < 0 then []
    else
      var n := if dot + 4 <= |name| then 3 else |name| - dot - 1;
      Fold(name[dot + 1..dot + 1 + n])
  }

  /** The plain short form. */
  function Make83(name: Name): (s: Short) {
    Pad(Stem(name, 8), 8) + Pad(Extension(name), 3)
  }

  /** Decimal digits, least significant first. */
  function LowDigits(n: nat): (d: seq<Byte>)
    ensures |d| >= 1
    ensures n < 10000 ==> |d| <= if n < 10 then 1 else if n < 100 then 2 else if n < 1000 then 3 else 4
    ensures forall k {:trigger d[k]} :: 0 <= k < |d| ==> 48 <= d[k] <= 57
  {
    if n < 10 then [48 + n] else [48 + n % 10] + LowDigits(n / 10)
  }

  lemma {:induction false} LowDigitsInjective(n: nat, m: nat)
    requires LowDigits(n) == LowDigits(m)
    ensures n == m
  {
    var d, e := LowDigits(n), LowDigits(m);
    assert d[0] == e[0] && d[1..] == e[1..];
    if n >= 10 && m >= 10 {
      assert d[1..] == LowDigits(n / 10) && e[1..] == LowDigits(m / 10);
      LowDigitsInjective(n / 10, m / 10);
    }
  }

  /** Decimal digits, most significant first. */
  function Decimal(n: nat): (d: seq<Byte>)
    ensures |d| == |LowDigits(n)|
    ensures forall k {:trigger d[k]} :: 0 <= k < |d| ==> 48 <= d[k] <= 57
  {
    var low := LowDigits(n);
    seq(|low|, k requires 0 <= k < |low| => low[|low| - 1 - k])
  }

  lemma DecimalInjective(n: nat, m: nat)
    requires Decimal(n) == Decimal(m)
    ensures n == m
  {
    var low, low' := LowDigits(n), LowDigits(m);
    forall k | 0 <= k < |low|
      ensures low[k] == low'[k]
    {
      assert low[k] == Decimal(n)[|low| - 1 - k] == Decimal(m)[|low| - 1 - k] == low'[k];
    }
    LowDigitsInjective(n, m);
  }

  /** The unpadded base of the `n`th numbered variant. */
  function NumberedBase(name: Name, n: nat): (b: seq<Byte>)
    requires 1 <= n <= 9999
    ensures |b| <= 8
  {
    var digits := Decimal(n);
    Stem(name, 7 - |digits|) + [TILDE] + digits
  }

  /** The `n`th numbered variant of the short form. */
  function Numbered(name: Name, n: nat): (s: Short)
    requires 1 <= n <= 9999
  {
    Pad(NumberedBase(name, n), 8) + Pad(Extension(name), 3)
  }

  // ---- What the short forms look like ----

  /** No small ASCII letters. */
  predicate Capital(s: seq<Byte>) {
    forall i {:trigger s[i]} :: 0 <= i < |s| ==> !(97 <= s[i] <= 122)
  }

  /** `n` bytes from `from` on hold the front of `text`, with blanks behind it. */
  predicate Field(s: Short, from: nat, n: nat, text: seq<Byte>)
    requires from + n <= 11
  {
    forall i {:trigger s[from + i]} :: 0 <= i < n ==> s[from + i] == if i < |text| then text[i] else 32
  }

  /** A name without spaces and dots goes into the base as it is, in capitals, as far as there is room. */
  lemma {:induction false} PlainStem(name: Name, n: nat, i: nat, dot: int, max: nat, caps: seq<Byte>)
    requires i <= n <= |name| && i <= max && (n == |name| || dot == n) && !(0 <= dot < n)
    requires |caps| == n && Capital(caps) && forall k {:trigger caps[k]} :: 0 <= k < n ==> SameLetter(name[k], caps[k])
    requires forall k {:trigger name[k]} :: 0 <= k < n ==> name[k] != 32 && name[k] != 46
    requires forall k {:trigger caps[..i][k]} :: 0 <= k < i ==> caps[..i][k] != SPACE && caps[..i][k] != DOT
    ensures StemFrom(name, i, dot, max, caps[..i]) == if n <= max then caps else caps[..max]
    decreases n - i
  {
    if i < n && i < max {
      assert caps[i] == Upper(name[i]);
      assert caps[..i] + [caps[i]] == caps[..i + 1];
      PlainStem(name, n, i + 1, dot, max, caps);
    } else {
      assert caps[..n] == caps;
    }
  }

  lemma {:induction false} LastDotIs(name: Name, d: int)
    requires -1 <= d < |name| && (d >= 0 ==> name[d] == DOT)
    requires forall i {:trigger name[i]} :: d < i < |name| ==> name[i] != DOT
    ensures LastDot(name) == d
  {
  }

  /** The plain form of a name with an extension: what comes before the last dot, in capitals, fills the first eight bytes,
      and what comes behind it the last three; both are cut or filled up with blanks. */
  lemma PlainForm(stem: Name, ext: Name, caps: seq<Byte>, extCaps: seq<Byte>)
    requires forall k {:trigger stem[k]} :: 0 <= k < |stem| ==> stem[k] != 32 && stem[k] != 46
    requires forall k {:trigger ext[k]} :: 0 <= k < |ext| ==> ext[k] != 46
    requires SameName(stem, caps) && Capital(caps) && SameName(ext, extCaps) && Capital(extCaps)
    ensures Field(Make83(stem + [46] + ext), 0, 8, caps) && Field(Make83(stem + [46] + ext), 8, 3, extCaps)
    ensures Field(Make83(stem), 0, 8, caps) && Field(Make83(stem), 8, 3, [])
  {
    hide StemFrom, LastDot, Extension, Field, SameLetter, Capital, SameName;
    var name := stem + [46] + ext;
    LastDotIs(name, |stem|);
    LastDotIs(stem, -1);
    assert name[..|stem|] == stem && stem[..|stem|] == stem;
    PlainBase(name, |stem|, caps);
    PlainBase(stem, |stem|, caps);
    PlainExtension(stem, ext, extCaps);
    NoExtension(stem);
    InField(Stem(name, 8), 8, caps);
    InField(Stem(stem, 8), 8, caps);
    InField(Extension(name), 3, extCaps);
    InField(Extension(stem), 3, []);
    FieldsOf(Stem(name, 8), Extension(name), caps, extCaps);
    FieldsOf(Stem(stem, 8), Extension(stem), caps, []);
  }

  /** A field that holds the front of a text. */
  predicate Holds(s: seq<Byte>, n: nat, text: seq<Byte>)
    requires |s| <= n
  {
    forall i {:trigger Pad(s, n)[i]} :: 0 <= i < n ==> Pad(s, n)[i] == if i < |text| then text[i] else 32
  }

  lemma InField(s: seq<Byte>, n: nat, text: seq<Byte>)
    requires |s| <= n && s == if |text| <= n then text else text[..n]
    ensures Holds(s, n, text)
  {
  }

  lemma FieldsOf(stem: seq<Byte>, ext: seq<Byte>, text: seq<Byte>, extText: seq<Byte>)
    requires |stem| <= 8 && |ext| <= 3 && Holds(stem, 8, text) && Holds(ext, 3, extText)
    ensures Field(Pad(stem, 8) + Pad(ext, 3), 0, 8, text) && Field(Pad(stem, 8) + Pad(ext, 3), 8, 3, extText)
  {
    var p, q := Pad(stem, 8), Pad(ext, 3);
    assert forall i | 0 <= i < 8 :: (p + q)[i] == p[i];
    assert forall i | 0 <= i < 3 :: (p + q)[8 + i] == q[i];
  }

  lemma PlainBase(name: Name, n: nat, caps: seq<Byte>)
    requires n <= |name| && SameName(name[..n], caps) && Capital(caps)
    requires LastDot(name) == if n == |name| then -1 else n
    requires forall k {:trigger name[k]} :: 0 <= k < n ==> name[k] != 32 && name[k] != 46
    ensures Stem(name, 8) == if |caps| <= 8 then caps else caps[..8]
  {
    hide StemFrom, LastDot, SameLetter, Capital;
    assert caps[..0] == [];
    assert forall k {:trigger caps[k]} | 0 <= k < n :: name[..n][k] == name[k];
    PlainStem(name, n, 0, LastDot(name), 8, caps);
  }

  lemma PlainExtension(stem: Name, ext: Name, caps: seq<Byte>)
    requires SameName(ext, caps) && Capital(caps) && LastDot(stem + [46] + ext) == |stem|
    ensures Extension(stem + [46] + ext) == if |caps| <= 3 then caps else caps[..3]
  {
    hide LastDot, SameName, Capital;
    var n := if |ext| >= 3 then 3 else |ext|;
    FoldCaps(ext, caps);
    FoldFront(ext, n);
    TailOf(stem, ext, n);
    hide Fold;
    assert caps[..|caps|] == caps;
  }

  lemma FoldFront(a: Name, n: nat)
    requires n <= |a|
    ensures Fold(a[..n]) == Fold(a)[..n]
  {
  }

  lemma TailOf(stem: Name, ext: Name, n: nat)
    requires n <= |ext|
    ensures (stem + [46] + ext)[|stem| + 1..|stem| + 1 + n] == ext[..n]
  {
  }

  lemma FoldCaps(a: Name, caps: Name)
    requires SameName(a, caps) && Capital(caps)
    ensures Fold(a) == caps
  {
  }

  lemma NoExtension(name: Name)
    requires LastDot(name) == -1
    ensures Extension(name) == []
  {
  }

  /** Bytes before the last dot that are spaces or dots leave no trace in the base. */
  lemma {:induction false} StemSkips(name: Name, at: nat, i: nat, dot: int, max: nat, acc: seq<Byte>)
    requires at < |name| && name[at] in {SPACE, DOT} && i <= at && (dot < 0 || at < dot)
    requires |acc| <= max && forall k {:trigger acc[k]} :: 0 <= k < |acc| ==> acc[k] != SPACE && acc[k] != DOT
    ensures StemFrom(name, i, dot, max, acc)
         == StemFrom(name[..at] + name[at + 1..], i, if dot < 0 then dot else dot - 1, max, acc)
    decreases at - i
  {
    var less := name[..at] + name[at + 1..];
    if |acc| == max {
    } else if i < at {
      assert less[i] == name[i];
      var c := Upper(name[i]);
      StemSkips(name, at, i + 1, dot, max, if c == SPACE || c == DOT then acc else acc + [c]);
    } else {
      SameFromHere(name, at + 1, less, at, dot, max, acc);
    }
  }

  lemma {:induction false} SameFromHere(a: Name, i: nat, b: Name, j: nat, dot: int, max: nat, acc: seq<Byte>)
    requires i == j + 1 && i <= |a| && |a| == |b| + 1 && (dot < 0 || i <= dot)
    requires forall k {:trigger b[k]} :: j <= k < |b| ==> b[k] == a[k + 1]
    requires |acc| <= max && forall k {:trigger acc[k]} :: 0 <= k < |acc| ==> acc[k] != SPACE && acc[k] != DOT
    ensures StemFrom(a, i, dot, max, acc) == StemFrom(b, j, if dot < 0 then dot else dot - 1, max, acc)
    decreases |a| - i
  {
    if i < |a| && |acc| < max && i != dot {
      assert b[j] == a[i];
      var c := Upper(a[i]);
      SameFromHere(a, i + 1, b, j + 1, dot, max, if c == SPACE || c == DOT then acc else acc + [c]);
    }
  }

  /** A space or a dot in front of the last dot can be left out of a name without changing its plain form; so can a space of
      a name without dots. */
  lemma LeftOut(name: Name, at: nat)
    requires at < |name| && name[at] in {32, 46}
    requires (exists k {:trigger name[k]} :: at < k < |name| && name[k] == 46)
          || (forall k {:trigger name[k]} :: 0 <= k < |name| ==> name[k] != 46)
    ensures Make83(name[..at] + name[at + 1..]) == Make83(name)
  {
    hide StemFrom, LastDot, Extension;
    var less := name[..at] + name[at + 1..];
    var dot := LastDot(name);
    LessDot(name, at);
    StemSkips(name, at, 0, dot, 8, []);
    assert dot >= 0 ==> less[dot..] == name[dot + 1..];
    SameExtension(name, dot, less, LastDot(less));
  }

  lemma LessDot(name: Name, at: nat)
    requires at < |name| && name[at] in {32, 46}
    requires (exists k {:trigger name[k]} :: at < k < |name| && name[k] == 46)
          || (forall k {:trigger name[k]} :: 0 <= k < |name| ==> name[k] != 46)
    ensures LastDot(name) < 0 || at < LastDot(name)
    ensures LastDot(name[..at] + name[at + 1..]) == if LastDot(name) < 0 then -1 else LastDot(name) - 1
  {
    hide LastDot;
    var less := name[..at] + name[at + 1..];
    var dot := LastDot(name);
    assert forall k {:trigger less[k]} | 0 <= k < |less| :: less[k] == if k < at then name[k] else name[k + 1];
    LastDotIs(less, if dot < 0 then -1 else dot - 1);
  }

  lemma SameExtension(a: Name, i: int, b: Name, j: int)
    requires i == LastDot(a) && j == LastDot(b) && (i < 0 <==> j < 0)
    requires i >= 0 ==> a[i + 1..] == b[j + 1..]
    ensures Extension(a) == Extension(b)
  {
    hide LastDot;
    if i >= 0 {
      var u, w := a[i + 1..], b[j + 1..];
      var n := if |u| >= 3 then 3 else |u|;
      assert a[i + 1..i + 1 + n] == u[..n] == b[j + 1..j + 1 + n];
    }
  }

  // ---- Numbered forms ----

  /** The number that decimal digits spell, the last one lowest. */
  function Value(d: seq<Byte>): int {
    if d == [] then 0 else 10 * Value(d[..|d| - 1]) + d[|d| - 1] - 48
  }

  lemma {:induction false} DecimalSpells(n: nat)
    ensures Value(Decimal(n)) == n && (n > 0 ==> Decimal(n)[0] != 48)
  {
    var d, low := Decimal(n), LowDigits(n);
    if n < 10 {
      assert d[..0] == [];
    } else {
      DecimalSpells(n / 10);
      assert low[1..] == LowDigits(n / 10);
      assert d[..|d| - 1] == Decimal(n / 10);
    }
  }

  /** The first bytes of a base do not depend on how many bytes there is room for. */
  lemma {:induction false} StemFront(name: Name, i: nat, dot: int, max: nat, max': nat, acc: seq<Byte>)
    requires i <= |name| && |acc| <= max <= max'
    requires forall k {:trigger acc[k]} :: 0 <= k < |acc| ==> acc[k] != SPACE && acc[k] != DOT
    ensures var s, s' := StemFrom(name, i, dot, max, acc), StemFrom(name, i, dot, max', acc);
      s == if |s'| <= max then s' else s'[..max]
    decreases |name| - i
  {
    if i < |name| && i != dot && |acc| < max {
      var c := Upper(name[i]);
      StemFront(name, i + 1, dot, max, max', if c == SPACE || c == DOT then acc else acc + [c]);
    } else {
      StemExtends(name, i, dot, max', acc);
    }
  }

  lemma {:induction false} StemExtends(name: Name, i: nat, dot: int, max: nat, acc: seq<Byte>)
    requires i <= |name| && |acc| <= max
    requires forall k {:trigger acc[k]} :: 0 <= k < |acc| ==> acc[k] != SPACE && acc[k] != DOT
    ensures acc <= StemFrom(name, i, dot, max, acc)
    decreases |name| - i
  {
    if i < |name| && |acc| < max && i != dot {
      var c := Upper(name[i]);
      StemExtends(name, i + 1, dot, max, if c == SPACE || c == DOT then acc else acc + [c]);
    }
  }

  /** The first `t` bytes of the base of the plain form, then a tilde, then the decimal digits of `n`, then blanks; the
      extension is that of the plain form.  `t` is as large as the base and eight bytes allow. */
  ghost predicate TildeForm(plain: Short, n: nat, t: nat, digits: seq<Byte>, s: Short) {
    && t + 1 + |digits| <= 8
    && (forall k {:trigger digits[k]} :: 0 <= k < |digits| ==> 48 <= digits[k] <= 57)
    && Value(digits) == n && digits != [] && digits[0] != 48
    && Field(s, 0, 8, plain[..t] + [126] + digits) && s[8..] == plain[8..]
    && (t + 1 + |digits| == 8 || plain[t] == 32)
    && forall k {:trigger plain[k]} :: 0 <= k < t ==> plain[k] != 32
  }

  lemma NumberedForm(name: Name, n: nat) returns (t: nat, digits: seq<Byte>)
    requires 1 <= n <= 9999
    ensures TildeForm(Make83(name), n, t, digits, Numbered(name, n))
  {
    hide StemFrom, LastDot, Extension, LowDigits, Decimal, Value;
    digits := Decimal(n);
    DecimalSpells(n);
    var max := 7 - |digits|;
    StemFront(name, 0, LastDot(name), max, 8, []);
    t := |Stem(name, max)|;
    TildeFields(Stem(name, 8), Stem(name, max), Extension(name), digits);
  }

  lemma TildeFields(stem: seq<Byte>, front: seq<Byte>, ext: seq<Byte>, digits: seq<Byte>)
    requires |stem| <= 8 && |ext| <= 3 && 1 <= |digits| <= 7
    requires front == if |stem| <= 7 - |digits| then stem else stem[..7 - |digits|]
    requires forall k {:trigger stem[k]} :: 0 <= k < |stem| ==> stem[k] != SPACE
    ensures var t, plain, s := |front|, Pad(stem, 8) + Pad(ext, 3), Pad(front + [TILDE] + digits, 8) + Pad(ext, 3);
      && Field(s, 0, 8, plain[..t] + [126] + digits) && s[8..] == plain[8..]
      && (t + 1 + |digits| == 8 || plain[t] == 32)
      && forall k {:trigger plain[k]} :: 0 <= k < t ==> plain[k] != 32
  {
    var base, plain := front + [TILDE] + digits, Pad(stem, 8) + Pad(ext, 3);
    assert forall k | 0 <= k < 8 :: plain[k] == Pad(stem, 8)[k];
    assert plain[..|front|] == front;
    assert plain[8..] == Pad(ext, 3);
    assert forall k | 0 <= k < 8 :: (Pad(base, 8) + Pad(ext, 3))[k] == Pad(base, 8)[k];
  }

  /** No short form holds a small letter. */
  lemma ShortIsCapital(name: Name, n: nat)
    ensures Capital(Make83(name))
    ensures 1 <= n <= 9999 ==> Capital(Numbered(name, n))
  {
    hide StemFrom, LastDot, Capital, LowDigits;
    CapitalParts([]);
    StemCapital(name, 0, LastDot(name), 8, []);
    ExtensionCapital(name);
    CapitalFields(Stem(name, 8), Extension(name));
    if 1 <= n <= 9999 {
      var digits := Decimal(n);
      StemCapital(name, 0, LastDot(name), 7 - |digits|, []);
      CapitalParts(digits);
      CapitalBase(Stem(name, 7 - |digits|), digits);
      CapitalFields(NumberedBase(name, n), Extension(name));
    }
  }

  lemma CapitalParts(digits: seq<Byte>)
    requires forall k {:trigger digits[k]} :: 0 <= k < |digits| ==> 48 <= digits[k] <= 57
    ensures Capital(digits)
  {
  }

  lemma CapitalBase(stem: seq<Byte>, digits: seq<Byte>)
    requires Capital(stem) && Capital(digits)
    ensures Capital(stem + [TILDE] + digits)
  {
  }

  lemma CapitalFields(a: seq<Byte>, b: seq<Byte>)
    requires |a| <= 8 && |b| <= 3 && Capital(a) && Capital(b)
    ensures Capital(Pad(a, 8) + Pad(b, 3))
  {
  }

  lemma ExtensionCapital(name: Name)
    ensures Capital(Extension(name))
  {
  }

  lemma {:induction false} StemCapital(name: Name, i: nat, dot: int, max: nat, acc: seq<Byte>)
    requires i <= |name| && |acc| <= max && Capital(acc)
    requires forall k {:trigger acc[k]} :: 0 <= k < |acc| ==> acc[k] != SPACE && acc[k] != DOT
    ensures Capital(StemFrom(name, i, dot, max, acc))
    decreases |name| - i
  {
    if i < |name| && |acc| < max && i != dot {
      var c := Upper(name[i]);
      StemCapital(name, i + 1, dot, max, if c == SPACE || c == DOT then acc else acc + [c]);
    }
  }

  /** The short form an entry called `name` gets beside entries with the short forms `taken`: the plain one; if that is taken,
      the numbered one with the least number that is not; if they all are, the plain one again. */
  ghost predicate ShortFor(name: Name, taken: set<Short>, short: Short) {
    if Make83(name) !in taken then short == Make83(name)
    else
      || (exists n {:trigger Numbered(name, n)} :: 1 <= n <= 9999 && short == Numbered(name, n) && short !in taken
            && forall m {:trigger Numbered(name, m)} :: 1 <= m < n ==> Numbered(name, m) in taken)
      || (short == Make83(name) && forall m {:trigger Numbered(name, m)} :: 1 <= m <= 9999 ==> Numbered(name, m) in taken)
  }

  /** Padding with spaces loses nothing when the last character is not a space. */
  lemma PadInjective(a: seq<Byte>, b: seq<Byte>, n: nat)
    requires |a| <= n && |b| <= n && Pad(a, n) == Pad(b, n)
    requires |a| > 0 && a[|a| - 1] != SPACE && |b| > 0 && b[|b| - 1] != SPACE
    ensures a == b
  {
    var p, q := Pad(a, n), Pad(b, n);
    assert p[|b| - 1] == q[|b| - 1] != SPACE && q[|a| - 1] == p[|a| - 1] != SPACE;
    assert |a| == |b|;
    assert forall k | 0 <= k < |a| :: a[k] == p[k];
    assert forall k | 0 <= k < |b| :: b[k] == q[k];
  }

  /** A tilde and the digits behind it can be read back from the end. */
  lemma TailInjective(a: seq<Byte>, n: nat, b: seq<Byte>, m: nat)
    requires a + [TILDE] + Decimal(n) == b + [TILDE] + Decimal(m)
    ensures n == m
  {
    var d, e := Decimal(n), Decimal(m);
    var u, w := a + [TILDE] + d, b + [TILDE] + e;
    assert u[|u| - 1 - |d|] == TILDE && w[|w| - 1 - |e|] == TILDE;
    assert forall k | |a| < k < |u| :: u[k] == d[k - |a| - 1] != TILDE;
    assert forall k | |b| < k < |w| :: w[k] == e[k - |b| - 1] != TILDE;
    assert |d| == |e|;
    assert u[|u| - |d|..] == d && w[|w| - |e|..] == e;
    DecimalInjective(n, m);
  }

  /** The numbered variants of every name are pairwise distinct. */
  lemma NumberedDistinct(name: Name, n: nat, m: nat)
    requires 1 <= n <= 9999 && 1 <= m <= 9999
    requires Numbered(name, n) == Numbered(name, m)
    ensures n == m
  {
    var a, b := NumberedBase(name, n), NumberedBase(name, m);
    assert Numbered(name, n)[..8] == Pad(a, 8) && Numbered(name, m)[..8] == Pad(b, 8);
    assert a[|a| - 1] == Decimal(n)[|Decimal(n)| - 1] && b[|b| - 1] == Decimal(m)[|Decimal(m)| - 1];
    PadInjective(a, b, 8);
    TailInjective(Stem(name, 7 - |Decimal(n)|), n, Stem(name, 7 - |Decimal(m)|), m);
  }

  /** The first `n` numbered variants. */
  function Variants(name: Name, n: nat): set<Short>
    requires n <= 9999
  {
    set k | 1 <= k <= n :: Numbered(name, k)
  }

  lemma {:induction false} VariantsCount(name: Name, n: nat)
    requires n <= 9999
    ensures |Variants(name, n)| == n
  {
    hide Numbered;
    if n == 0 {
      assert Variants(name, 0) == {};
    } else {
      VariantsCount(name, n - 1);
      var s := Numbered(name, n);
      if s in Variants(name, n - 1) {
        var k :| 1 <= k <= n - 1 && Numbered(name, k) == s;
        NumberedDistinct(name, k, n);
      }
      assert Variants(name, n) == Variants(name, n - 1) + {s};
    }
  }

  lemma {:induction false} SubsetSize<T>(a: set<T>, b: set<T>)
    requires a <= b
    ensures |a| <= |b|
  {
    assert b == a + (b - a);
  }

  /** Pigeonhole: fewer than 9999 taken names leave some variant free. */
  lemma SomeVariantFree(name: Name, taken: set<Short>) returns (n: nat)
    requires |taken| < 9999
    ensures 1 <= n <= 9999 && Numbered(name, n) !in taken
  {
    VariantsCount(name, 9999);
    if Variants(name, 9999) <= taken {
      SubsetSize(Variants(name, 9999), taken);
    }
    var s :| s in Variants(name, 9999) && s !in taken;
    n :| 1 <= n <= 9999 && Numbered(name, n) == s;
  }
}
