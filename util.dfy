/** The formatting helpers of src/p2p/util.rs: the URL of a peer and the wire
    form of a contact. */
module Util {
  import opened Bytes
  import opened Keys
  import opened Wrappers
  import opened Buckets

  /** The wire form of a contact (`Kcontact` of the protocol). */
  datatype Kcontact = Kcontact(uid: seq<byte>, address: string, pubKey: seq<byte>)

  predicate IsDigit(ch: char)
  {
    '0' <= ch <= '9'
  }

  function DigitChar(d: nat): (ch: char)
    requires d < 10
    ensures IsDigit(ch)
  {
    "0123456789"[d]
  }

  function DigitValue(ch: char): (d: nat)
    requires IsDigit(ch)
    ensures d < 10
  {
    (ch as int - '0' as int) as nat
  }

  /** `to_string` of an unsigned integer: its decimal digits, without
      leading zeros. */
  function Decimal(n: nat): (s: string)
    ensures |s| >= 1 && (forall i :: 0 <= i < |s| ==> IsDigit(s[i]))
    ensures |s| > 1 ==> s[0] != '0'
  {
    if n < 10 then [DigitChar(n)] else Decimal(n / 10) + [DigitChar(n % 10)]
  }

  /** The number a string of decimal digits denotes. */
  function DecimalValue(s: string): nat
    requires forall i :: 0 <= i < |s| ==> IsDigit(s[i])
  {
    if s == [] then 0 else 10 * DecimalValue(s[..|s| - 1]) + DigitValue(s[|s| - 1])
  }

  /** Reading back the digits of `to_string` gives the number. */
  lemma {:induction false} DecimalRoundTrip(n: nat)
    ensures DecimalValue(Decimal(n)) == n
  {
    if n >= 10 {
      DecimalRoundTrip(n / 10);
      var s := Decimal(n);
      assert s[..|s| - 1] == Decimal(n / 10);
    }
  }

  /** A port takes one to five digits. */
  lemma DecimalPortWidth(port: u16)
    ensures 1 <= |Decimal(port as nat)| <= 5
  {
    var n := port as nat;
    if n >= 10 {
      assert |Decimal(n)| == |Decimal(n / 10)| + 1;
      if n / 10 >= 10 {
        assert |Decimal(n / 10)| == |Decimal(n / 100)| + 1;
        if n / 100 >= 10 {
          assert |Decimal(n / 100)| == |Decimal(n / 1000)| + 1;
          if n / 1000 >= 10 {
            assert |Decimal(n / 1000)| == |Decimal(n / 10000)| + 1;
          }
        }
      }
    }
  }

  /** `format_address` (also defined in src/p2p/client.rs). */
  function FormatAddress(ip: string, port: u16): (s: string)
  {
    "http://" + ip + ":" + Decimal(port as nat)
  }

  /** The last position of `ch` in `s`, if any. */
  function LastIndexOf(s: string, ch: char): (r: Option<nat>)
    ensures r.Some? ==> r.value < |s| && s[r.value] == ch && forall j :: r.value < j < |s| ==> s[j] != ch
    ensures r.None? ==> forall j :: 0 <= j < |s| ==> s[j] != ch
  {
    if s == [] then None
    else if s[|s| - 1] == ch then Some(|s| - 1)
    else LastIndexOf(s[..|s| - 1], ch)
  }

  /** Splits an address made by `format_address` into its ip and port: the
      port is the digits after the last ':'. */
  function ParseAddress(s: string): Option<(string, nat)>
  {
    if |s| < 7 || s[..7] != "http://" then None
    else
      match LastIndexOf(s, ':')
      case None => None
      case Some(c) =>
        if c < 7 then None
        else if forall j :: c < j < |s| ==> IsDigit(s[j]) then Some((s[7..c], DecimalValue(s[c + 1..])))
        else None
  }

  /** The address starts with the scheme, has the announced length, and
      gives the ip and port back, even when the ip itself holds a ':'. */
  lemma FormatAddressParses(ip: string, port: u16)
    ensures var s := FormatAddress(ip, port);
      && s[..7] == "http://"
      && |s| == 8 + |ip| + |Decimal(port as nat)|
      && ParseAddress(s) == Some((ip, port as nat))
  {
    var s := FormatAddress(ip, port);
    var d := Decimal(port as nat);
    var c := 7 + |ip|;
    assert s[c] == ':';
    assert forall j :: c < j < |s| ==> s[j] == d[j - c - 1];
    var r := LastIndexOf(s, ':');
    assert r.Some? && r.value == c;
    assert s[7..c] == ip;
    assert s[c + 1..] == d;
    DecimalRoundTrip(port as nat);
  }

  /** `format_kcontact` (and `Contact::as_kcontact` of src/p2p/node.rs). */
  function FormatKcontact(contact: Contact): (k: Kcontact)
    ensures |k.uid| == 32
  {
    Kcontact(AsBytes(contact.uid), contact.address, contact.pubKey)
  }

  /** The wire form keeps the identifier, the address and the public key, so
      `Key::from_vec` gives the identifier back; it drops `last_seen`, so
      marking a contact seen does not change it. */
  lemma FormatKcontactSpec(contact: Contact, now: int)
    ensures var k := FormatKcontact(contact);
      FromVec(k.uid) == contact.uid && k.address == contact.address && k.pubKey == contact.pubKey
    ensures FormatKcontact(See(contact, now)) == FormatKcontact(contact)
  {
  }
}
