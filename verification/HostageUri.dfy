/** The URI that travels in a hostage blob: wrapped by LimpetCreateHostageKey's last step, unwrapped at import. */
module HostageUri {
  import opened ByteStrings
  import opened Cfb

  /** A WCHAR, as its two bytes lie in memory. */
  datatype WChar = WChar(low: bv8, high: bv8)

  type WString = seq<WChar>

  const NUL := WChar(0, 0)
  const SOLIDUS := WChar(0x2f, 0)

  /** The size of the buffer in a TPM2B_MAX_BUFFER. */
  const MAX_DIGEST_BUFFER: nat := 1024

  function InMemory(s: WString): (o: Octets)
    ensures |o| == 2 * |s|
  {
    if s == [] then [] else [s[0].low, s[0].high] + InMemory(s[1..])
  }

  lemma {:induction false} InMemoryInParts(s: WString, t: WString)
    ensures InMemory(s + t) == InMemory(s) + InMemory(t)
  {
    if s == [] {
      assert s + t == t;
    } else {
      assert (s + t)[1..] == s[1..] + t;
      InMemoryInParts(s[1..], t);
    }
  }

  /** The NUL-terminated string at the start of a memory block. */
  function CString(o: Octets): (s: WString)
    decreases |o|
  {
    if |o| < 2 || WChar(o[0], o[1]) == NUL then [] else [WChar(o[0], o[1])] + CString(o[2..])
  }

  function BeforeNul(s: WString): (r: WString)
    ensures r <= s
    ensures r == s <==> NUL !in s
  {
    if s == [] || s[0] == NUL then [] else [s[0]] + BeforeNul(s[1..])
  }

  lemma CStringHead(w: WChar, o: Octets)
    ensures CString([w.low, w.high] + o) == if w == NUL then [] else [w] + CString(o)
  {
    assert ([w.low, w.high] + o)[2..] == o;
  }

  lemma {:induction false} CStringReadsBack(s: WString)
    ensures CString(InMemory(s) + [0, 0]) == BeforeNul(s)
  {
    hide CString;
    if s == [] {
      CStringHead(NUL, []);
      assert InMemory(s) + [0, 0] == [0, 0] + [];
    } else {
      CStringHead(s[0], InMemory(s[1..]) + [0, 0]);
      assert InMemory(s) + [0, 0] == [s[0].low, s[0].high] + (InMemory(s[1..]) + [0, 0]);
      CStringReadsBack(s[1..]);
    }
  }

  /** The text of the URI: the address, and the device after a slash if there is one. */
  function UriInfo(url: WString, deviceName: Option<WString>): WString {
    match deviceName
    case None => url
    case Some(d) => url + [SOLIDUS] + d
  }

  function RoundUp16(n: nat): (m: nat)
    ensures n <= m < n + 16 && m % 16 == 0
  {
    (n + 15) / 16 * 16
  }

  function NulPadded(s: WString): (p: WString)
    ensures |p| == RoundUp16(|s|) && s <= p
  {
    s + seq(RoundUp16(|s|) - |s|, _ => NUL)
  }

  lemma PaddingFollows(s: WString)
    ensures InMemory(NulPadded(s))[..2 * |s|] == InMemory(s)
  {
    InMemoryInParts(s, NulPadded(s)[|s|..]);
    assert NulPadded(s) == s + NulPadded(s)[|s|..];
  }

  /** The buffer of the container, which the encryption fills in whole blocks, and the size that is marshalled with
      it: that of the text without padding and without a terminator, in 16 bits.  The source does not check that the
      padded text fits the buffer. */
  function Wrap(cipher: Block -> Block, uriInfo: WString): (o: (nat, Octets))
    requires 2 * RoundUp16(|uriInfo|) <= MAX_DIGEST_BUFFER
  {
    (2 * |uriInfo| % 0x1_0000, Encrypt(cipher, ZERO_IV, InMemory(NulPadded(uriInfo))))
  }

  /** TPM2B_MAX_BUFFER_Marshal sends the size and as many bytes of the buffer. */
  function Marshalled(container: (nat, Octets)): Octets
    requires container.0 <= |container.1|
  {
    container.1[..container.0]
  }

  /** The import rounds the size up to whole blocks, so that it also decrypts what happens to follow in its own buffer;
      then it cuts the text to the size, terminates it, and stores it as a C string. */
  function Unwrap(cipher: Block -> Block, size: nat, buffer: Octets): WString
    requires RoundUp16(size) <= |buffer|
  {
    CString(Decrypt(cipher, ZERO_IV, buffer[..RoundUp16(size)])[..size] + [0, 0])
  }

  /** Whatever follows the marshalled bytes in the importer's buffer, the URI comes out as it went in, exactly if it
      holds no NUL; otherwise it is cut there. */
  lemma UriSurvivesTheHostageBlob(cipher: Block -> Block, url: WString, deviceName: Option<WString>, buffer: Octets)
    requires 2 * RoundUp16(|UriInfo(url, deviceName)|) <= MAX_DIGEST_BUFFER == |buffer|
    requires Marshalled(Wrap(cipher, UriInfo(url, deviceName))) <= buffer
    ensures var (uri, size) := (UriInfo(url, deviceName), Wrap(cipher, UriInfo(url, deviceName)).0);
      && RoundUp16(size) <= |buffer|
      && Unwrap(cipher, size, buffer) == BeforeNul(uri)
      && (Unwrap(cipher, size, buffer) == uri <==> NUL !in uri)
  {
    hide CString, Encrypt, Decrypt, BeforeNul;
    var uri := UriInfo(url, deviceName);
    var (size, sent) := Wrap(cipher, uri);
    var plain := InMemory(NulPadded(uri));
    var rounded := buffer[..RoundUp16(size)];
    assert rounded[..size] == sent[..size];
    PrefixesDecrypt(cipher, ZERO_IV, rounded, size);
    PrefixesDecrypt(cipher, ZERO_IV, sent, size);
    DecryptUndoesEncrypt(cipher, ZERO_IV, plain);
    PaddingFollows(uri);
    CStringReadsBack(uri);
  }
}
