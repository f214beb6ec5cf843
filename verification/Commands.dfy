/** The commands of a client, and the addresses in them. */
module Commands {
  import opened Bytes

  /** Text that is known to be ASCII, or not. */
  datatype Text = Ascii(s: bytes) | Utf8(s: bytes)

  datatype Hostname =
    | Utf8Domain(raw: bytes)
    | AsciiDomain(raw: bytes)
    | Ipv6(raw: bytes)
    | Ipv4(raw: bytes)

  datatype Localpart =
    | AsciiLocalpart(raw: bytes)
    | QuotedAscii(raw: bytes)
    | Utf8Localpart(raw: bytes)
    | QuotedUtf8(raw: bytes)

  datatype Email = Email(localpart: Localpart, hostname: Option<Hostname>)

  /** The source route of an address. */
  datatype Path = Path(domains: seq<Hostname>)

  datatype Parameter = Parameter(name: bytes, value: Option<Text>)

  datatype Command =
    | Data
    | Ehlo(hostname: Hostname)
    | Expn(name: Text)
    | Helo(hostname: Hostname)
    | Help(subject: Text)
    | Lhlo(hostname: Hostname)
    | Mail(path: Option<Path>, from: Option<Email>, params: seq<Parameter>)
    | Noop(text: Text)
    | Quit
    | Rcpt(path: Option<Path>, to: Email, params: seq<Parameter>)
    | Rset
    | Starttls
    | Vrfy(name: Text)
}
