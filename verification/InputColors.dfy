/** The colour values that a reply may carry, form by form. */
module InputColors {
  import opened Bytes
  import opened InputEvents

  /** One to four hexadecimal digits. */
  predicate Component(s: seq<byte>) {
    1 <= |s| <= 4 && forall i :: 0 <= i < |s| ==> s[i] as char in "0123456789abcdefABCDEF"
  }

  /** `rgb:` and three components between slashes. */
  function Slashed(r: seq<byte>, g: seq<byte>, b: seq<byte>): seq<byte> {
    [0x72, 0x67, 0x62, 0x3a] + (r + [0x2f] + (g + [0x2f] + b))
  }

  ghost predicate IsSlashed(v: seq<byte>) {
    exists r, g, b :: Component(r) && Component(g) && Component(b) && v == Slashed(r, g, b)
  }

  /** `#` and three components of equal length. */
  ghost predicate IsHashed(v: seq<byte>) {
    exists r, g, b :: Component(r) && Component(g) && Component(b) && |r| == |g| == |b| && v == [0x23] + r + g + b
  }

  /** A colour value is `rgb:` with three components, or `#` with three of equal length, and nothing else. */
  lemma ColorForms(v: seq<byte>)
    ensures IsRgbColor(v) <==> IsSlashed(v) || IsHashed(v)
  {
    hide IsRgbColor, IsSlashed, IsHashed;
    SlashedForms(v);
    HashedForms(v);
  }

  lemma SlashedForms(v: seq<byte>)
    ensures IsSlashed(v) <==> [0x72, 0x67, 0x62, 0x3a] <= v && IsRgbColor(v)
  {
    hide SplitOn, Component;
    if [0x72, 0x67, 0x62, 0x3a] <= v && IsRgbColor(v) {
      var parts := SplitOn(v[4..], 0x2f);
      ThreeParts(v[4..], 0x2f);
      SameComponent(parts[0]);
      SameComponent(parts[1]);
      SameComponent(parts[2]);
      assert v == v[..4] + v[4..];
      assert v == Slashed(parts[0], parts[1], parts[2]);
    }
    if IsSlashed(v) {
      var r, g, b :| Component(r) && Component(g) && Component(b) && v == Slashed(r, g, b);
      SlashedIsColor(r, g, b);
    }
  }

  lemma HashedForms(v: seq<byte>)
    ensures IsHashed(v) <==> !([0x72, 0x67, 0x62, 0x3a] <= v) && IsRgbColor(v)
  {
    hide Component, IsRgbColor;
    if !([0x72, 0x67, 0x62, 0x3a] <= v) && IsRgbColor(v) { var r, g, b := HashedParts(v); }
    if IsHashed(v) {
      var r, g, b :| Component(r) && Component(g) && Component(b) && |r| == |g| == |b| && v == [0x23] + r + g + b;
      HashedIsColor(r, g, b);
      assert v[0] == 0x23;
    }
  }

  lemma HashedParts(v: seq<byte>) returns (r: seq<byte>, g: seq<byte>, b: seq<byte>)
    requires !([0x72, 0x67, 0x62, 0x3a] <= v) && IsRgbColor(v)
    ensures Component(r) && Component(g) && Component(b) && |r| == |g| == |b| && v == [0x23] + r + g + b
  {
    hide SplitOn, Component, IsHexDigit, IsHexComponent;
    var n := (|v| - 1) / 3;
    assert |v| == 1 + 3 * n && 1 <= n <= 4;
    r, g, b := v[1..1 + n], v[1 + n..1 + 2 * n], v[1 + 2 * n..];
    SameComponent(r);
    SameComponent(g);
    SameComponent(b);
  }

  lemma HexDigits(b: byte)
    ensures IsHexDigit(b) <==> b as char in "0123456789abcdefABCDEF"
  {
    var digits := "0123456789abcdefABCDEF";
    if IsDigit(b) { assert digits[b - 0x30] == b as char; }
    else if 0x61 <= b <= 0x66 { assert digits[10 + b as int - 0x61] == b as char; }
    else if 0x41 <= b <= 0x46 { assert digits[16 + b as int - 0x41] == b as char; }
  }

  lemma SameComponent(s: seq<byte>)
    ensures IsHexComponent(s) <==> Component(s)
    ensures Component(s) ==> 0x2f !in s
    ensures Component(s) <==> 1 <= |s| <= 4 && forall i :: 0 <= i < |s| ==> IsHexDigit(s[i])
  {
    hide IsHexDigit;
    forall i | 0 <= i < |s| ensures IsHexDigit(s[i]) <==> s[i] as char in "0123456789abcdefABCDEF" { HexDigits(s[i]); }
    NoSlash();
  }

  lemma NoSlash()
    ensures !IsHexDigit(0x2f)
  {
  }

  /** Three parts are what lies between two separators. */
  lemma ThreeParts(s: seq<byte>, separator: byte)
    requires |SplitOn(s, separator)| == 3
    ensures var parts := SplitOn(s, separator);
            s == parts[0] + [separator] + (parts[1] + [separator] + parts[2])
  {
    var i := FirstIndexFrom(s, b => b == separator, 0).value;
    var rest := s[i + 1..];
    assert SplitOn(s, separator) == [s[..i]] + SplitOn(rest, separator);
    var j := FirstIndexFrom(rest, b => b == separator, 0).value;
    assert SplitOn(rest, separator) == [rest[..j]] + SplitOn(rest[j + 1..], separator);
    assert SplitOn(rest[j + 1..], separator) == [rest[j + 1..]];
  }

  lemma SlashedIsColor(r: seq<byte>, g: seq<byte>, b: seq<byte>)
    requires Component(r) && Component(g) && Component(b)
    ensures IsRgbColor(Slashed(r, g, b))
  {
    hide SplitOn, Component, IsHexComponent;
    SameComponent(r);
    SameComponent(g);
    SameComponent(b);
    SplitOnFirst(r, 0x2f, g + [0x2f] + b);
    SplitOnFirst(g, 0x2f, b);
    SplitOnNone(b, 0x2f);
    assert Slashed(r, g, b)[4..] == r + [0x2f] + (g + [0x2f] + b);
  }

  lemma HashedIsColor(r: seq<byte>, g: seq<byte>, b: seq<byte>)
    requires Component(r) && Component(g) && Component(b) && |r| == |g| == |b|
    ensures IsRgbColor([0x23] + r + g + b)
  {
    hide Component, IsHexComponent, IsHexDigit;
    SameComponent(r);
    SameComponent(g);
    SameComponent(b);
    var v := [0x23] + r + g + b;
    assert v[0] == 0x23;
    forall i | 1 <= i < |v| ensures IsHexDigit(v[i]) {
      if i < 1 + |r| { assert v[i] == r[i - 1]; }
      else if i < 1 + 2 * |r| { assert v[i] == g[i - 1 - |r|]; }
      else { assert v[i] == b[i - 1 - 2 * |r|]; }
    }
  }
}
