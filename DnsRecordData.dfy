/** The metadata payload of Create and Update jobs: a DNS name and an IP
    address packed into one string of the shape
    `{"Name":"<name>","IpAddress":"<ip>"}`, and the decoder that unpacks it.
    Inside the two string values a double quote and a backslash are written
    with a preceding backslash. */
module DnsRecordData {
  import opened Wrappers

  /** The decoded payload. */
  datatype DnsRecordData = DnsRecordData(name: string, ipAddress: string)

  const NameOpening: string := "{\"Name\":\""
  const IpAddressOpening: string := ",\"IpAddress\":\""
  const Closing: string := "}"

  /** Escapes the characters that would end or escape a string value. */
  function Escape(s: string): string
  {
    if s == [] then []
    else if s[0] == '"' || s[0] == '\\' then ['\\', s[0]] + Escape(s[1..])
    else [s[0]] + Escape(s[1..])
  }

  /** Reads one escaped string value up to and including its closing quote,
      returning the unescaped value and what follows the quote. */
  function ReadString(s: string): Option<(string, string)>
  {
    if s == [] then None
    else if s[0] == '"' then Some(([], s[1..]))
    else if s[0] == '\\' then
      if |s| < 2 || !(s[1] == '"' || s[1] == '\\') then None
      else
        match ReadString(s[2..])
        case None => None
        case Some((v, rest)) => Some(([s[1]] + v, rest))
    else
      match ReadString(s[1..])
      case None => None
      case Some((v, rest)) => Some(([s[0]] + v, rest))
  }

  /** The payload as stored in a job's metadata. */
  function Encode(d: DnsRecordData): string
  {
    NameOpening + (Escape(d.name) + ("\"" + (IpAddressOpening + (Escape(d.ipAddress) + ("\"" + Closing)))))
  }

  /** Decodes a metadata string; `None` stands for the deserialization
      exception raised on text that is not an encoded payload. */
  function Decode(m: string): Option<DnsRecordData>
  {
    if !(NameOpening <= m) then None
    else
      match ReadString(m[|NameOpening|..])
      case None => None
      case Some((name, afterName)) =>
        if !(IpAddressOpening <= afterName) then None
        else
          match ReadString(afterName[|IpAddressOpening|..])
          case None => None
          case Some((ip, afterIp)) =>
            if afterIp == Closing then Some(DnsRecordData(name, ip)) else None
  }

  /** Reading an escaped value back yields the original value and leaves the
      text after its closing quote untouched. */
  lemma {:induction false} ReadEscaped(s: string, rest: string)
    ensures ReadString(Escape(s) + ("\"" + rest)) == Some((s, rest))
  {
    var t := Escape(s) + ("\"" + rest);
    if s == [] {
      assert t == ['"'] + rest;
    } else {
      var tail := Escape(s[1..]) + ("\"" + rest);
      ReadEscaped(s[1..], rest);
      assert [s[0]] + s[1..] == s;
      if s[0] == '"' || s[0] == '\\' {
        assert t == ['\\', s[0]] + tail;
        assert t[0] == '\\' && t[1] == s[0] && t[2..] == tail;
      } else {
        assert t == [s[0]] + tail;
        assert t[0] == s[0] && t[1..] == tail;
      }
    }
  }

  /** Decoding is the exact inverse of encoding. */
  lemma RoundTrip(d: DnsRecordData)
    ensures Decode(Encode(d)) == Some(d)
  {
    var afterName := IpAddressOpening + (Escape(d.ipAddress) + ("\"" + Closing));
    var namePart := Escape(d.name) + ("\"" + afterName);
    assert Encode(d) == NameOpening + namePart;
    assert (NameOpening + namePart)[|NameOpening|..] == namePart;
    ReadEscaped(d.name, afterName);
    assert afterName[|IpAddressOpening|..] == Escape(d.ipAddress) + ("\"" + Closing);
    ReadEscaped(d.ipAddress, Closing);
  }

  /** Whatever `ReadString` accepts is an escaped value followed by its
      closing quote: the reader admits only what `Escape` writes. */
  lemma {:induction false} ReadStringCanonical(s: string)
    ensures ReadString(s).Some? ==> s == Escape(ReadString(s).value.0) + ("\"" + ReadString(s).value.1)
  {
    if s != [] && s[0] != '"' && ReadString(s).Some? {
      var rest := ReadString(s).value.1;
      if s[0] == '\\' {
        var w := ReadString(s[2..]).value.0;
        ReadStringCanonical(s[2..]);
        assert ReadString(s).value.0 == [s[1]] + w;
        assert Escape([s[1]] + w) == ['\\', s[1]] + Escape(w) by {
          assert ([s[1]] + w)[1..] == w;
        }
        assert s == ['\\', s[1]] + s[2..];
      } else {
        var w := ReadString(s[1..]).value.0;
        ReadStringCanonical(s[1..]);
        assert ReadString(s).value.0 == [s[0]] + w;
        assert Escape([s[0]] + w) == [s[0]] + Escape(w) by {
          assert ([s[0]] + w)[1..] == w;
        }
        assert s == [s[0]] + s[1..];
      }
    }
  }

  /** Decoding accepts only metadata that encoding produces: a decoded
      payload encodes back to the very text it was read from. */
  lemma DecodeCanonical(m: string)
    ensures Decode(m).Some? ==> Encode(Decode(m).value) == m
  {
    if Decode(m).Some? {
      var namePart := m[|NameOpening|..];
      assert m == NameOpening + namePart;
      ReadStringCanonical(namePart);
      var (name, afterName) := ReadString(namePart).value;
      var ipPart := afterName[|IpAddressOpening|..];
      assert afterName == IpAddressOpening + ipPart;
      ReadStringCanonical(ipPart);
    }
  }

  /** Distinct payloads are stored as distinct metadata strings. */
  lemma EncodeInjective(d1: DnsRecordData, d2: DnsRecordData)
    requires Encode(d1) == Encode(d2)
    ensures d1 == d2
  {
    RoundTrip(d1);
    RoundTrip(d2);
  }
}
