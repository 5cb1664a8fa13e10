/**
 * The image upload endpoint (hosted_editor/img_upload/upload.php): an
 * ordered validation cascade over the request, the `data:` URL header
 * (RFC 2397, with a base64 payload as in section 4 of RFC 4648), the
 * extension, and the stored name, public URL and folder of the upload.
 *
 * The host functions are parameters: the JSON decoding of the body, the
 * base64 decoder, the clock, the five random bytes, and whether the folder
 * exists, can be created and the file can be written.
 */
module ImageUpload {
  import opened Wrappers
  import opened JsText

  /** An octet, as `random_bytes` and `base64_decode` give them. */
  type Byte = b: nat | b < 256

  /** A value `json_decode($raw, true)` can give: JSON objects and arrays
      both become PHP arrays; only their string keys matter here. Invalid
      JSON decodes to null. */
  datatype PhpValue =
    | PhpNull
    | PhpBool(b: bool)
    | PhpInt(n: int)
    | PhpString(s: seq<char>)
    | PhpArray(entries: map<seq<char>, PhpValue>)

  /** PHP's `!$v`. */
  predicate Falsy(v: PhpValue) {
    match v
    case PhpNull => true
    case PhpBool(b) => !b
    case PhpInt(n) => n == 0
    case PhpString(s) => s == [] || s == "0"
    case PhpArray(entries) => entries == map[]
  }

  /** PHP's `isset($v[$key])`: only an array has string keys, and a key
      holding null is not set. */
  predicate IsSet(v: PhpValue, key: seq<char>) {
    v.PhpArray? && key in v.entries && !v.entries[key].PhpNull?
  }

  /** The string a scalar is coerced to when passed where PHP expects one. */
  function ScalarText(v: PhpValue): (r: seq<char>)
    requires !v.PhpArray?
    ensures v.PhpString? ==> r == v.s
  {
    match v
    case PhpNull => []
    case PhpBool(b) => if b then "1" else []
    case PhpInt(n) => IntToString(n)
    case PhpString(s) => s
  }

  /** What the host supplies: the base64 decoder (None for `false`), the
      clock, `random_bytes(5)`, `date('Y')` and `date('m')` as numbers, and
      the outcomes of `is_dir`, `mkdir` and `file_put_contents`. */
  datatype Host = Host(
    decodeBase64: seq<char> -> Option<seq<Byte>>,
    timestamp: nat,
    random: seq<Byte>,
    year: nat,
    month: nat,
    dirExists: bool,
    mkdirSucceeds: bool,
    writeSucceeds: bool)

  /** The request body and its JSON decoding. */
  datatype Request = Request(raw: seq<char>, decoded: PhpValue)

  /** The JSON the endpoint answers with; `Aborted` is an uncaught PHP
      TypeError (an array where a string is needed), which ends the script
      without a JSON answer. `stored` is the content written to disk. */
  datatype Response =
    | Failure(error: seq<char>)
    | Success(url: seq<char>, filename: seq<char>, folder: seq<char>, stored: seq<Byte>)
    | Aborted

  const NoInput := "No input received"
  const InvalidPayload := "Invalid payload"
  const UnsupportedFormat := "Invalid or unsupported image format"
  const DecodeFailed := "Failed to decode base64 image data"
  const FolderFailed := "Failed to create upload directories"
  const WriteFailed := "Failed to write file to disk"

  const PublicRoot := "https://www.bbyosummer.org/sfmc/dm-email-editor/img_upload/"

  /** The subtypes of the header pattern, in the order of its alternation. */
  const Subtypes: seq<seq<char>> := ["png", "jpeg", "jpg", "gif"]

  function HeaderPrefix(subtype: seq<char>): seq<char> {
    "data:image/" + subtype + ";base64,"
  }

  /** The subtype the header pattern captures, if the text begins with
      `data:image/(png|jpeg|jpg|gif);base64,` (case-sensitive). */
  function ParseHeader(s: seq<char>): (r: Option<seq<char>>)
    ensures r.Some? ==> r.value in Subtypes && HeaderPrefix(r.value) <= s
    ensures r.None? ==> forall t :: t in Subtypes ==> !(HeaderPrefix(t) <= s)
  {
    if HeaderPrefix("png") <= s then Some("png")
    else if HeaderPrefix("jpeg") <= s then Some("jpeg")
    else if HeaderPrefix("jpg") <= s then Some("jpg")
    else if HeaderPrefix("gif") <= s then Some("gif")
    else None
  }

  /** `strtolower` of the captured subtype, with `jpg` renamed `jpeg`. */
  function Extension(subtype: seq<char>): (ext: seq<char>)
    requires subtype in Subtypes
    ensures ext in ["png", "jpeg", "gif"]
    ensures subtype == "jpg" ==> ext == "jpeg"
    ensures subtype != "jpg" ==> ext == subtype
  {
    if subtype == "jpg" then "jpeg" else subtype
  }

  /** `substr($s, strpos($s, ",") + 1)`: the text after the first comma
      (with no comma, `strpos` gives false, which counts as 0). */
  function AfterFirstComma(s: seq<char>): seq<char> {
    match IndexOf(s, ',')
    case Some(i) => s[i + 1..]
    case None => if s == [] then [] else s[1..]
  }

  /** `bin2hex`: two lower-case hexadecimal digits per byte. */
  function HexDigit(v: nat): (c: char)
    requires v < 16
  {
    if v < 10 then ('0' as int + v) as char else ('a' as int + v - 10) as char
  }

  function Bin2Hex(bytes: seq<Byte>): (r: seq<char>)
    ensures |r| == 2 * |bytes|
  {
    if bytes == [] then []
    else
      var v := bytes[|bytes| - 1];
      Bin2Hex(bytes[..|bytes| - 1]) + [HexDigit(v / 16), HexDigit(v % 16)]
  }

  function HexValue(c: char): (v: nat)
    ensures v < 16
  {
    if '0' <= c <= '9' then c as int - '0' as int
    else if 'a' <= c <= 'f' then c as int - 'a' as int + 10
    else 0
  }

  function HexPair(high: char, low: char): Byte {
    16 * HexValue(high) + HexValue(low)
  }

  /** Reads back a text of hexadecimal digit pairs. */
  function Hex2Bin(h: seq<char>): (r: seq<Byte>)
    requires |h| % 2 == 0
    ensures |r| == |h| / 2
  {
    if h == [] then []
    else Hex2Bin(h[..|h| - 2]) + [HexPair(h[|h| - 2], h[|h| - 1])]
  }

  /** `date('Y')` (at least four digits) and `date('m')` (two digits). */
  function YearText(year: nat): seq<char> {
    PadLeft(NatToString(year), 4, '0')
  }

  function MonthText(month: nat): seq<char> {
    PadLeft(NatToString(month), 2, '0')
  }

  function Folder(host: Host): seq<char> {
    YearText(host.year) + "/" + MonthText(host.month) + "/"
  }

  /** `"{$timestamp}-{$random}.{$ext}"`. */
  function StoredName(host: Host, ext: seq<char>): seq<char> {
    NatToString(host.timestamp) + "-" + Bin2Hex(host.random) + "." + ext
  }

  /** The client's `filename`, when set, goes through `basename`, which
      throws on an array. The name is otherwise never used. */
  predicate FilenameThrows(decoded: PhpValue) {
    IsSet(decoded, "filename") && decoded.entries["filename"].PhpArray?
  }

  /** The checks on the body, then `Store` on the text of `data`; the
      first failing check decides the single error. */
  function Upload(req: Request, host: Host): (r: Response)
    ensures r.Failure? ==> r.error in [NoInput, InvalidPayload, UnsupportedFormat, DecodeFailed, FolderFailed, WriteFailed]
    ensures r.Success? ==> r.url == PublicRoot + r.folder + r.filename && r.folder == Folder(host)
  {
    if Falsy(PhpString(req.raw)) then Failure(NoInput)
    else if Falsy(req.decoded) || !IsSet(req.decoded, "data") then Failure(InvalidPayload)
    else if FilenameThrows(req.decoded) || req.decoded.entries["data"].PhpArray? then Aborted
    else Store(ScalarText(req.decoded.entries["data"]), host)
  }

  /** The checks on the text of `data` and the folder and file writes. */
  function Store(text: seq<char>, host: Host): (r: Response)
    ensures r.Failure? ==> r.error in [UnsupportedFormat, DecodeFailed, FolderFailed, WriteFailed]
    ensures r.Success? ==> r.url == PublicRoot + r.folder + r.filename && r.folder == Folder(host)
  {
    match ParseHeader(text)
    case None => Failure(UnsupportedFormat)
    case Some(subtype) =>
      var ext := Extension(subtype);
      match host.decodeBase64(AfterFirstComma(text))
      case None => Failure(DecodeFailed)
      case Some(binary) =>
        var name := StoredName(host, ext);
        if !host.dirExists && !host.mkdirSucceeds then Failure(FolderFailed)
        else if !host.writeSucceeds then Failure(WriteFailed)
        else Success(PublicRoot + Folder(host) + name, name, Folder(host), binary)
  }

  // ---------------------------------------------------------------------
  // The header and its payload
  // ---------------------------------------------------------------------

  predicate HasHeader(text: seq<char>, subtype: seq<char>) {
    subtype in Subtypes && HeaderPrefix(subtype) <= text
  }

  /** At most one alternative of the header pattern fits a text, so the
      order of the alternation does not matter. */
  lemma HeaderUnique(text: seq<char>, t: seq<char>, u: seq<char>)
    requires HasHeader(text, t) && HasHeader(text, u)
    ensures t == u
  {
    assert HeaderPrefix(t)[11] == text[11] == HeaderPrefix(u)[11];
    assert HeaderPrefix(t)[13] == text[13] == HeaderPrefix(u)[13];
  }

  /** The header parse captures the one alternative that fits. */
  lemma ParseHeaderFinds(text: seq<char>, subtype: seq<char>)
    requires HasHeader(text, subtype)
    ensures ParseHeader(text) == Some(subtype)
  {
    HeaderUnique(text, subtype, ParseHeader(text).value);
  }

  /** No comma in a header but its last character. */
  lemma HeaderCommaLast(subtype: seq<char>)
    requires subtype in Subtypes
    ensures var p := HeaderPrefix(subtype);
      p[|p| - 1] == ',' && forall j :: 0 <= j < |p| - 1 ==> p[j] != ','
  {
  }

  /** The decoded payload is exactly the text after the header: the first
      comma of the text is the header's last character. */
  lemma PayloadFollowsHeader(text: seq<char>, subtype: seq<char>)
    requires HasHeader(text, subtype)
    ensures AfterFirstComma(text) == text[|HeaderPrefix(subtype)|..]
  {
    var p := HeaderPrefix(subtype);
    HeaderCommaLast(subtype);
    assert forall j :: 0 <= j < |p| ==> text[j] == p[j];
    assert text[..|p|][|p| - 1] == ',';
    var i := IndexOf(text, ',').value;
    assert i == |p| - 1;
  }

  // ---------------------------------------------------------------------
  // The stored name
  // ---------------------------------------------------------------------

  predicate IsLowerHex(c: char) {
    '0' <= c <= '9' || 'a' <= c <= 'f'
  }

  /** A byte written as two digits reads back as itself. */
  lemma HexPairRoundTrip(b: Byte)
    ensures IsLowerHex(HexDigit(b / 16)) && IsLowerHex(HexDigit(b % 16))
    ensures HexPair(HexDigit(b / 16), HexDigit(b % 16)) == b
  {
    assert HexValue(HexDigit(b / 16)) == b / 16;
    assert HexValue(HexDigit(b % 16)) == b % 16;
  }

  /** `bin2hex` writes only lower-case hexadecimal digits. */
  lemma {:induction false} Bin2HexIsLowerHex(bytes: seq<Byte>)
    ensures forall i :: 0 <= i < |Bin2Hex(bytes)| ==> IsLowerHex(Bin2Hex(bytes)[i])
  {
    if bytes != [] {
      Bin2HexIsLowerHex(bytes[..|bytes| - 1]);
      HexPairRoundTrip(bytes[|bytes| - 1]);
    }
  }

  /** Reading back what `bin2hex` writes gives the bytes. */
  lemma {:induction false} Bin2HexRoundTrip(bytes: seq<Byte>)
    ensures Hex2Bin(Bin2Hex(bytes)) == bytes
  {
    if bytes != [] {
      var init := bytes[..|bytes| - 1];
      var b := bytes[|bytes| - 1];
      Bin2HexRoundTrip(init);
      HexPairRoundTrip(b);
      Hex2BinAppendPair(Bin2Hex(init), HexDigit(b / 16), HexDigit(b % 16));
      SplitLast(bytes);
    }
  }

  lemma SplitLast(bytes: seq<Byte>)
    requires bytes != []
    ensures bytes == bytes[..|bytes| - 1] + [bytes[|bytes| - 1]]
  {
  }

  /** Reading a text followed by one more digit pair appends that pair's byte. */
  lemma Hex2BinAppendPair(h: seq<char>, high: char, low: char)
    requires |h| % 2 == 0
    ensures Hex2Bin(h + [high, low]) == Hex2Bin(h) + [HexPair(high, low)]
  {
    var t := h + [high, low];
    assert t[..|t| - 2] == h;
  }

  /** The stored name is the decimal timestamp, a dash, ten lower-case
      hexadecimal digits that spell the random bytes, a dot and the
      extension; the timestamp reads back from its first part. */
  lemma StoredNameShape(host: Host, ext: seq<char>)
    requires |host.random| == 5
    ensures var name := StoredName(host, ext);
      var ts := NatToString(host.timestamp);
      var hex := name[|ts| + 1..|ts| + 11];
      |name| == |ts| + 12 + |ext| &&
      name[|ts|] == '-' && name[|ts| + 11] == '.' && name[|ts| + 12..] == ext &&
      AllDigits(name[..|ts|]) && DigitsValue(name[..|ts|]) == host.timestamp &&
      (forall i :: 0 <= i < 10 ==> IsLowerHex(hex[i])) && Hex2Bin(hex) == host.random
  {
    var name := StoredName(host, ext);
    var ts := NatToString(host.timestamp);
    Bin2HexIsLowerHex(host.random);
    Bin2HexRoundTrip(host.random);
    NatToStringRoundTrip(host.timestamp);
    assert name[..|ts|] == ts;
    assert name[|ts| + 1..|ts| + 11] == Bin2Hex(host.random);
  }

  // ---------------------------------------------------------------------
  // The cascade
  // ---------------------------------------------------------------------

  /** Some header alternative fits the text. */
  predicate HeaderFits(text: seq<char>) {
    exists t | t in Subtypes :: HasHeader(text, t)
  }

  /** Some header alternative fits and the text after it decodes. */
  predicate Decodes(text: seq<char>, host: Host) {
    exists t | t in Subtypes :: HasHeader(text, t) &&
      host.decodeBase64(text[|HeaderPrefix(t)|..]).Some?
  }

  /** Each of the later errors is given exactly when its own check fails
      and every earlier check passes. */
  lemma StoreCascade(text: seq<char>, host: Host)
    ensures var r := Store(text, host);
      var folderOk := Decodes(text, host) && (host.dirExists || host.mkdirSucceeds);
      (r == Failure(UnsupportedFormat) <==> !HeaderFits(text)) &&
      (r == Failure(DecodeFailed) <==> HeaderFits(text) && !Decodes(text, host)) &&
      (r == Failure(FolderFailed) <==> Decodes(text, host) && !folderOk) &&
      (r == Failure(WriteFailed) <==> folderOk && !host.writeSucceeds) &&
      (r.Success? <==> folderOk && host.writeSucceeds)
  {
    match ParseHeader(text)
    case None =>
    case Some(u) =>
      PayloadFollowsHeader(text, u);
      forall t | HasHeader(text, t)
        ensures t == u
      {
        HeaderUnique(text, t, u);
      }
  }

  /** A successful store uses the stored name in the month's folder, with
      the extension the header names (`jpg` becoming `jpeg`), and writes
      the decoded payload that follows the header. */
  lemma StoreSuccess(text: seq<char>, host: Host, subtype: seq<char>)
    requires HasHeader(text, subtype) && Store(text, host).Success?
    ensures var r := Store(text, host);
      var ext := Extension(subtype);
      ext in ["png", "jpeg", "gif"] &&
      r.filename == StoredName(host, ext) &&
      r.folder == YearText(host.year) + "/" + MonthText(host.month) + "/" &&
      r.url == PublicRoot + r.folder + r.filename &&
      Some(r.stored) == host.decodeBase64(text[|HeaderPrefix(subtype)|..])
  {
    ParseHeaderFinds(text, subtype);
    PayloadFollowsHeader(text, subtype);
  }

  /** The request passes the checks on its body: a non-empty body, a JSON
      array with a `data` entry, and no array where a string is needed. */
  predicate WellFormed(req: Request) {
    !Falsy(PhpString(req.raw)) && IsSet(req.decoded, "data") &&
    !FilenameThrows(req.decoded) && !req.decoded.entries["data"].PhpArray?
  }

  function DataText(req: Request): seq<char>
    requires WellFormed(req)
  {
    ScalarText(req.decoded.entries["data"])
  }

  /** The body checks come first, in order, and a well-formed request is
      answered by the checks on its `data` text. */
  lemma UploadCascade(req: Request, host: Host)
    ensures var r := Upload(req, host);
      var bodyOk := !Falsy(PhpString(req.raw));
      var payloadOk := bodyOk && IsSet(req.decoded, "data");
      (r == Failure(NoInput) <==> !bodyOk) &&
      (r == Failure(InvalidPayload) <==> bodyOk && !payloadOk) &&
      (r.Aborted? <==> payloadOk && !WellFormed(req)) &&
      (WellFormed(req) ==> r == Store(DataText(req), host))
  {
    if WellFormed(req) {
      var r := Store(DataText(req), host);
      assert r.Failure? ==> r.error != NoInput && r.error != InvalidPayload;
    }
  }

  /** The client's file name never reaches the response: two requests
      that differ only in `filename`, neither of them an array, get the
      same answer. */
  lemma UploadIgnoresClientFilename(raw: seq<char>, entries: map<seq<char>, PhpValue>, name1: PhpValue, name2: PhpValue, host: Host)
    requires !name1.PhpArray? && !name2.PhpArray?
    ensures Upload(Request(raw, PhpArray(entries["filename" := name1])), host) ==
            Upload(Request(raw, PhpArray(entries["filename" := name2])), host)
  {
    var d1 := PhpArray(entries["filename" := name1]);
    var d2 := PhpArray(entries["filename" := name2]);
    assert IsSet(d1, "data") <==> IsSet(d2, "data");
    assert !FilenameThrows(d1) && !FilenameThrows(d2);
  }
}
