/**
 * The transfer header of mesh_pulse/core/transfer.py,
 * `FILENAME|SIZE|SHA256[|MESSAGE]`: building it on the sender, splitting and
 * parsing it on the receiver, and reducing the filename to its final path
 * component (`Path(name).name`) so that no write can leave the receive directory.
 */
module Header {
  import opened Wrappers

  /** The field delimiter of the header. */
  const SEPARATOR: char := '|'
  /** The POSIX path separator. */
  const SLASH: char := '/'

  /** The position of the first `c` in `s`. */
  function FirstIndex(s: string, c: char): (i: nat)
    requires c in s
    ensures i < |s| && s[i] == c && c !in s[..i]
  {
    if s[0] == c then 0
    else
      var j := FirstIndex(s[1..], c);
      assert s[..j + 1] == [s[0]] + s[1..][..j];
      j + 1
  }

  /** Any position holding the first `c` is the one `FirstIndex` finds. */
  lemma FirstIndexIsUnique(s: string, c: char, j: nat)
    requires j < |s| && s[j] == c && c !in s[..j]
    ensures FirstIndex(s, c) == j
  {
  }

  /** `sep.join(parts)`. */
  function Join(parts: seq<string>, sep: char): string
    requires |parts| >= 1
    decreases |parts|
  {
    if |parts| == 1 then parts[0] else parts[0] + [sep] + Join(parts[1..], sep)
  }

  /** `s.split(sep)`: the pieces between separators, never an empty list. */
  function Split(s: string, sep: char): (parts: seq<string>)
    ensures |parts| >= 1
    decreases |s|
  {
    if sep in s then
      var i := FirstIndex(s, sep);
      [s[..i]] + Split(s[i + 1..], sep)
    else [s]
  }

  /** No piece holds the separator, and joining the pieces gives the string back. */
  lemma SplitPieces(s: string, sep: char)
    ensures forall i :: 0 <= i < |Split(s, sep)| ==> sep !in Split(s, sep)[i]
    ensures Join(Split(s, sep), sep) == s
  {
    PiecesHaveNoSeparator(s, sep);
    PiecesJoinBack(s, sep);
  }

  lemma {:induction false} PiecesHaveNoSeparator(s: string, sep: char)
    ensures forall i :: 0 <= i < |Split(s, sep)| ==> sep !in Split(s, sep)[i]
    decreases |s|
  {
    if sep in s {
      var i := FirstIndex(s, sep);
      var tail := Split(s[i + 1..], sep);
      PiecesHaveNoSeparator(s[i + 1..], sep);
      var parts := [s[..i]] + tail;
      assert Split(s, sep) == parts;
      forall k | 0 <= k < |parts|
        ensures sep !in parts[k]
      {
        if k > 0 {
          assert parts[k] == tail[k - 1];
        }
      }
    }
  }

  lemma {:induction false} PiecesJoinBack(s: string, sep: char)
    ensures Join(Split(s, sep), sep) == s
    decreases |s|
  {
    if sep in s {
      var i := FirstIndex(s, sep);
      var first, rest := s[..i], s[i + 1..];
      var tail := Split(rest, sep);
      PiecesJoinBack(rest, sep);
      var parts := [first] + tail;
      assert Split(s, sep) == parts;
      assert Join(parts, sep) == first + [sep] + Join(tail, sep) by {
        assert parts[1..] == tail;
      }
      assert s == first + [sep] + rest;
    }
  }

  /** Splitting a join of separator-free pieces gives the pieces back. */
  lemma {:induction false} SplitJoin(parts: seq<string>, sep: char)
    requires |parts| >= 1
    requires forall i :: 0 <= i < |parts| ==> sep !in parts[i]
    ensures Split(Join(parts, sep), sep) == parts
    decreases |parts|
  {
    if |parts| > 1 {
      var tail := parts[1..];
      assert Join(parts, sep) == parts[0] + [sep] + Join(tail, sep);
      SplitCons(parts[0], Join(tail, sep), sep);
      SplitJoin(tail, sep);
      assert parts == [parts[0]] + tail;
    } else {
      SplitPlain(parts[0], sep);
    }
  }

  /** A separator-free piece followed by a separator is the first piece. */
  lemma SplitCons(x: string, y: string, sep: char)
    requires sep !in x
    ensures Split(x + [sep] + y, sep) == [x] + Split(y, sep)
  {
    var s := x + [sep] + y;
    assert s[..|x|] == x;
    FirstIndexIsUnique(s, sep, |x|);
    assert s[|x| + 1..] == y;
  }

  /** A separator splits a string into the pieces of each side. */
  lemma {:induction false} SplitAround(a: string, b: string, sep: char)
    ensures Split(a + [sep] + b, sep) == Split(a, sep) + Split(b, sep)
    decreases |a|
  {
    if sep in a {
      var i := FirstIndex(a, sep);
      var first, after := a[..i], a[i + 1..];
      assert a == first + [sep] + after;
      assert a + [sep] + b == first + [sep] + (after + [sep] + b);
      SplitCons(first, after + [sep] + b, sep);
      SplitCons(first, after, sep);
      SplitAround(after, b, sep);
    } else {
      SplitCons(a, b, sep);
      SplitPlain(a, sep);
    }
  }

  /** Two separators around a separator-free middle piece. */
  lemma SplitFields(head: string, middle: string, tail: string, sep: char)
    requires sep !in middle
    ensures Split(head + [sep] + middle + [sep] + tail, sep) == Split(head, sep) + [middle] + Split(tail, sep)
  {
    SplitAround(head + [sep] + middle, tail, sep);
    SplitAround(head, middle, sep);
    SplitPlain(middle, sep);
  }

  /** The path components PurePosixPath keeps: every piece except "" and ".". */
  function Kept(pieces: seq<string>): (r: seq<string>)
    ensures forall i :: 0 <= i < |r| ==> r[i] in pieces && r[i] != "" && r[i] != "."
    decreases |pieces|
  {
    if pieces == [] then []
    else (if pieces[0] == "" || pieces[0] == "." then [] else [pieces[0]]) + Kept(pieces[1..])
  }

  lemma {:induction false} KeptAppend(a: seq<string>, b: seq<string>)
    ensures Kept(a + b) == Kept(a) + Kept(b)
    decreases |a|
  {
    if a != [] {
      assert (a + b)[1..] == a[1..] + b;
      KeptAppend(a[1..], b);
    } else {
      assert a + b == b;
    }
  }

  /**
   * `Path(path).name`: the last component that is not empty and not ".",
   * or "" when there is none (".." is a component and is kept).
   */
  function Basename(path: string): (name: string)
    // The stored name is a single component: it never holds a separator.
    ensures SLASH !in name
    ensures name != "."
  {
    var pieces := Split(path, SLASH);
    var parts := Kept(pieces);
    SplitPieces(path, SLASH);
    if parts == [] then ""
    else
      assert parts[|parts| - 1] in pieces;
      parts[|parts| - 1]
  }

  /** Whatever directories precede a name, only the name survives. */
  lemma BasenameDropsDirectories(dir: string, name: string)
    requires SLASH !in name && name != "" && name != "."
    ensures Basename(dir + [SLASH] + name) == name
  {
    SplitAround(dir, name, SLASH);
    assert Split(name, SLASH) == [name];
    KeptAppend(Split(dir, SLASH), [name]);
    assert Kept([name]) == [name] by {
      assert Kept([name]) == [name] + Kept([name][1..]);
    }
  }

  /** A plain name is its own basename. */
  lemma BasenameOfName(name: string)
    requires SLASH !in name && name != "" && name != "."
    ensures Basename(name) == name
  {
    assert Split(name, SLASH) == [name];
    assert Kept([name]) == [name] + Kept([name][1..]);
  }

  /** The path-traversal attempt `../escaped_file.txt` is stored as `escaped_file.txt`. */
  lemma TraversalIsStripped()
    ensures Basename("../escaped_file.txt") == "escaped_file.txt"
  {
    assert "../escaped_file.txt" == ".." + [SLASH] + "escaped_file.txt";
    BasenameDropsDirectories("..", "escaped_file.txt");
  }

  predicate IsDigit(c: char) { '0' <= c <= '9' }

  predicate AllDigits(s: string)
  {
    forall i :: 0 <= i < |s| ==> IsDigit(s[i])
  }

  /** The decimal value of a string of digits. */
  function DigitsValue(s: string): nat
    requires AllDigits(s)
    decreases |s|
  {
    if s == [] then 0 else DigitsValue(s[..|s| - 1]) * 10 + (s[|s| - 1] as int - '0' as int)
  }

  /** `str(n)` for a non-negative integer. */
  function Decimal(n: nat): (s: string)
    ensures |s| >= 1 && AllDigits(s)
  {
    var last := ('0' as int + n % 10) as char;
    if n < 10 then [last] else Decimal(n / 10) + [last]
  }

  lemma {:induction false} DecimalValue(n: nat)
    ensures DigitsValue(Decimal(n)) == n
  {
    var s := Decimal(n);
    if n >= 10 {
      assert s[..|s| - 1] == Decimal(n / 10);
      DecimalValue(n / 10);
    }
  }

  /** `int(s)` for an optionally signed string of ASCII digits; None is the ValueError. */
  function ParseInt(s: string): (r: Option<int>)
    // Accepted: digits, optionally after one sign; anything else is a ValueError.
    ensures r.Some? <==>
      (|s| > 0 && AllDigits(s)) || (|s| > 1 && (s[0] == '-' || s[0] == '+') && AllDigits(s[1..]))
    ensures |s| > 0 && AllDigits(s) ==> r == Some(DigitsValue(s))
    ensures |s| > 1 && s[0] == '-' && AllDigits(s[1..]) ==> r == Some(-(DigitsValue(s[1..]) as int))
  {
    if |s| > 0 && (s[0] == '-' || s[0] == '+') then
      var digits := s[1..];
      if |digits| > 0 && AllDigits(digits) then
        Some(if s[0] == '-' then -(DigitsValue(digits) as int) else DigitsValue(digits))
      else None
    else if |s| > 0 && AllDigits(s) then Some(DigitsValue(s))
    else None
  }

  /** The size the sender writes is the size the receiver reads. */
  lemma ParseDecimal(n: nat)
    ensures ParseInt(Decimal(n)) == Some(n)
  {
    DecimalValue(n);
  }

  /** The fields a receiver takes from a header. */
  datatype Header = Header(filename: string, filesize: int, digest: string, message: Option<string>)

  /** Why a header is refused before any transfer record exists. */
  datatype HeaderError =
    | TooFewFields(header: string)  // ValueError "Invalid header format"
    | BadSize(field: string)        // ValueError from int()

  /** Python truthiness of the optional message: given and non-empty. */
  predicate HasMessage(message: Option<string>)
  {
    message.Some? && message.value != ""
  }

  /** The sender's `f"{name}|{filesize}|{file_hash}"`, plus `|message` for a non-empty message. */
  function BuildHeader(name: string, size: nat, digest: string, message: Option<string>): (text: string)
    // The name comes first and a '|' ends it; an attached message comes last, after a '|'.
    ensures |text| > |name| && text[..|name|] == name && text[|name|] == SEPARATOR
    ensures HasMessage(message) ==>
      |text| > |message.value| && text[|text| - |message.value|..] == message.value
      && text[|text| - |message.value| - 1] == SEPARATOR
  {
    name + [SEPARATOR] + Decimal(size) + [SEPARATOR] + digest
      + (if HasMessage(message) then [SEPARATOR] + message.value else "")
  }

  /** The receiver's parse: split on '|', sanitise the name, read the size, keep the digest and message. */
  function ParseHeader(text: string): (r: Result<Header, HeaderError>)
    ensures r.Ok? <==> |Split(text, SEPARATOR)| >= 3 && ParseInt(Split(text, SEPARATOR)[1]).Some?
    ensures |Split(text, SEPARATOR)| < 3 ==> r == Err(TooFewFields(text))
    ensures r.Ok? ==> SLASH !in r.value.filename && r.value.filename != "."
    ensures r.Ok? ==> r.value.digest == Split(text, SEPARATOR)[2]
  {
    var parts := Split(text, SEPARATOR);
    if |parts| < 3 then Err(TooFewFields(text))
    else
      var filename := Basename(parts[0]);
      match ParseInt(parts[1])
      case None => Err(BadSize(parts[1]))
      case Some(size) =>
        Ok(Header(filename, size, parts[2], if |parts| > 3 then Some(parts[3]) else None))
  }

  /**
   * Round trip: when no field contains '|', the receiver recovers the sender's
   * name (as its basename), size, digest, and the message if one was attached.
   */
  lemma HeaderRoundTrip(name: string, size: nat, digest: string, message: Option<string>)
    requires SEPARATOR !in name && SEPARATOR !in digest
    requires message.Some? ==> SEPARATOR !in message.value
    ensures ParseHeader(BuildHeader(name, size, digest, message))
      == Ok(Header(Basename(name), size, digest, if HasMessage(message) then message else None))
  {
    var head := BuildHeader(name, size, digest, None);
    SplitHeaderFields(name, size, digest);
    ParseDecimal(size);
    if HasMessage(message) {
      BuildWithMessage(name, size, digest, message.value);
      SplitAround(head, message.value, SEPARATOR);
      SplitPlain(message.value, SEPARATOR);
      ParseParts(head + [SEPARATOR] + message.value, name, Decimal(size), digest, [message.value]);
    } else {
      assert BuildHeader(name, size, digest, message) == head;
      assert [name, Decimal(size), digest] == [name, Decimal(size), digest] + [];
      ParseParts(head, name, Decimal(size), digest, []);
    }
  }

  /** A header whose pieces start with a name, a size and a digest; a fourth piece is the message. */
  lemma ParseParts(text: string, name: string, size: string, digest: string, more: seq<string>)
    requires Split(text, SEPARATOR) == [name, size, digest] + more
    requires ParseInt(size).Some?
    ensures ParseHeader(text)
      == Ok(Header(Basename(name), ParseInt(size).value, digest, if more != [] then Some(more[0]) else None))
  {
    var parts := Split(text, SEPARATOR);
    assert |parts| >= 3 && parts[0] == name && parts[1] == size && parts[2] == digest;
    assert more != [] ==> |parts| > 3 && parts[3] == more[0];
  }

  /** A string without the separator is a single piece. */
  lemma SplitPlain(s: string, sep: char)
    requires sep !in s
    ensures Split(s, sep) == [s]
  {
  }

  /** The three fields of a header without a message, when none holds '|'. */
  lemma SplitHeaderFields(name: string, size: nat, digest: string)
    requires SEPARATOR !in name && SEPARATOR !in digest
    ensures Split(BuildHeader(name, size, digest, None), SEPARATOR) == [name, Decimal(size), digest]
  {
    var dec := Decimal(size);
    assert SEPARATOR !in dec by {
      assert forall i :: 0 <= i < |dec| ==> dec[i] != SEPARATOR;
    }
    assert BuildHeader(name, size, digest, None) == name + [SEPARATOR] + dec + [SEPARATOR] + digest;
    SplitFields(name, dec, digest, SEPARATOR);
    SplitPlain(name, SEPARATOR);
    SplitPlain(digest, SEPARATOR);
  }

  /** A name without '/' is kept whole, unless it is "" or "." and gives "". */
  lemma BasenameOfPlain(p: string)
    requires SLASH !in p
    ensures Basename(p) == p || Basename(p) == ""
  {
    if p == "" || p == "." {
      SplitPlain(p, SLASH);
      assert Kept([p]) == [] + Kept([p][1..]);
    } else {
      BasenameOfName(p);
    }
  }

  /**
   * A file name holding '|' (legal on POSIX) does not survive the header:
   * the receiver takes the part before the first '|' as the name, so any
   * record it registers is filed under another name.
   */
  lemma PipeInNameIsMisread(name: string, size: nat, digest: string, message: Option<string>)
    requires SEPARATOR in name && SLASH !in name
    ensures var r := ParseHeader(BuildHeader(name, size, digest, message));
      r.Ok? ==> r.value.filename != name
  {
    var i := FirstIndex(name, SEPARATOR);
    var first := name[..i];
    var text := BuildHeader(name, size, digest, message);
    assert Split(text, SEPARATOR)[0] == first by {
      var tail := text[i + 1..];
      assert text == first + [SEPARATOR] + tail;
      SplitAround(first, tail, SEPARATOR);
      SplitPlain(first, SEPARATOR);
    }
    BasenameOfPlain(first);
    assert |first| < |name|;
  }

  /** `a|b` is sent as `a|b|SIZE|DIGEST...`: "b" is read as the size, and the header is refused. */
  lemma PipeInNameIsRefused(size: nat, digest: string, message: Option<string>)
    ensures ParseHeader(BuildHeader("a|b", size, digest, message)) == Err(BadSize("b"))
  {
    var text := BuildHeader("a|b", size, digest, message);
    var rest := text[4..];
    assert text == text[..3] + [SEPARATOR] + rest;
    assert "a|b" == "a" + [SEPARATOR] + "b";
    SplitFields("a", "b", rest, SEPARATOR);
    SplitPlain("a", SEPARATOR);
  }

  /** A non-empty message is appended to the three-field header after a '|'. */
  lemma BuildWithMessage(name: string, size: nat, digest: string, message: string)
    requires message != ""
    ensures BuildHeader(name, size, digest, Some(message)) == BuildHeader(name, size, digest, None) + [SEPARATOR] + message
  {
    var three := name + [SEPARATOR] + Decimal(size) + [SEPARATOR] + digest;
    assert BuildHeader(name, size, digest, None) == three + "";
    assert three + "" == three;
  }

  lemma Regroup(head: string, cut: string, after: string, sep: char)
    ensures head + [sep] + (cut + [sep] + after) == head + [sep] + cut + [sep] + after
  {
  }

  /** A message holding '|' arrives cut at its first '|'. */
  lemma PipeInMessageIsTruncated(name: string, size: nat, digest: string, message: string)
    requires SEPARATOR !in name && SEPARATOR !in digest && SEPARATOR in message
    ensures ParseHeader(BuildHeader(name, size, digest, Some(message)))
      == Ok(Header(Basename(name), size, digest, Some(message[..FirstIndex(message, SEPARATOR)])))
  {
    var i := FirstIndex(message, SEPARATOR);
    var cut, after := message[..i], message[i + 1..];
    var text := BuildHeader(name, size, digest, Some(message));
    var more := [cut] + Split(after, SEPARATOR);
    assert Split(text, SEPARATOR) == [name, Decimal(size), digest] + more by {
      var head := BuildHeader(name, size, digest, None);
      assert message == cut + [SEPARATOR] + after;
      BuildWithMessage(name, size, digest, message);
      Regroup(head, cut, after, SEPARATOR);
      SplitFields(head, cut, after, SEPARATOR);
      SplitHeaderFields(name, size, digest);
    }
    ParseDecimal(size);
    ParseParts(text, name, Decimal(size), digest, more);
  }
}
