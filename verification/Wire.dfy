/** What programs put on the wire: addresses, machine words as big-endian fields, and exclusive or. */
module Wire {
  import opened Bytes

  /** An IP address. */
  datatype Address = V4(octets: seq<byte>) | V6(octets: seq<byte>)

  type u16 = v: int | 0 <= v < 0x1_0000

  /** `as u16` followed by `to_be_bytes`: what does not fit is cut off. */
  function Be16(v: nat): (r: seq<byte>)
    ensures |r| == 2
  {
    [v / 256 % 256, v % 256]
  }

  function U16At(s: seq<byte>, i: nat): u16
    requires i + 2 <= |s|
  {
    var hi: int, lo: int := s[i], s[i + 1];
    hi * 256 + lo
  }

  lemma {:induction false} Be16ReadsBack(s: seq<byte>, i: nat, v: nat)
    requires i + 2 <= |s| && s[i..i + 2] == Be16(v)
    ensures U16At(s, i) == v % 0x1_0000
  {
    assert s[i] == s[i..i + 2][0] && s[i + 1] == s[i..i + 2][1];
    TwoDigits(v);
  }

  lemma {:induction false} TwoDigits(v: nat)
    ensures v / 256 % 256 * 256 + v % 256 == v % 0x1_0000
  {
    var low, rest := v % 256, v / 256;
    var mid, top := rest % 256, rest / 256;
    assert v == 256 * rest + low && rest == 256 * top + mid;
    assert v == 0x1_0000 * top + (256 * mid + low);
  }

  function Fill(n: nat): (r: seq<byte>)
    ensures |r| == n && forall i :: 0 <= i < n ==> r[i] == 0
  {
    seq(n, _ => 0)
  }

  function Xor(a: nat, b: nat): nat {
    if a == 0 then b else if b == 0 then a
    else 2 * Xor(a / 2, b / 2) + (a % 2 + b % 2) % 2
  }
}
