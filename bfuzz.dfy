/*
 * A model of the scan engine of bfuzz, a TCP "port fuzzer" (src/main.rs):
 * unescaping of the ignore values, the wordlist statistics fold, the retry
 * loop of one probe over abstracted socket results, and the bounded window
 * of in-flight probes together with the classification of their results.
 */
module Bfuzz {

  // ---------------------------------------------------------------------------
  // Basic types
  // ---------------------------------------------------------------------------

  datatype Option<T> = None | Some(value: T)

  /** Rust's `Result`, with its constructor names. */
  datatype Result<T, E> = Ok(value: T) | Err(error: E)

  newtype byte = x: int | 0 <= x < 256

  const TwoTo63: int := 0x8000_0000_0000_0000

  /** Rust's `u16`: the batch size. */
  type U16 = n: nat | n < 0x1_0000

  /**
   * The `max_length` fuzz receives from get_wordlist_info. The fold never
   * raises it above the line count, every line of the wordlist takes at
   * least one byte of the file, and file sizes are below 2^63 (`off_t`), so
   * it stays below 2^63 and its `as i64` conversion never wraps.
   */
  type MaxLength = n: nat | n < TwoTo63

  /**
   * The length of a Rust `String`. No allocation exceeds `isize::MAX` bytes,
   * so a length converted with `as i64` never wraps.
   */
  type StrLen = n: nat | n < TwoTo63

  function Min(a: int, b: int): int { if a <= b then a else b }

  /** std::io::ErrorKind: `Other`, or any other kind, identified by a code. */
  datatype ErrorKind = Other | Kind(code: nat)

  /** std::io::Error reduced to its kind and its message. */
  datatype IoError = IoError(kind: ErrorKind, message: string)

  // ---------------------------------------------------------------------------
  // Ignore values: escape_ignores
  // ---------------------------------------------------------------------------

  /**
   * Rust's `str::replace(from, to)`: the leftmost occurrence of `from` is
   * replaced first and scanning resumes after it, so matches never overlap.
   */
  function Replace(s: string, from: string, to: string): (r: string)
    requires |from| > 0
    ensures |from| >= |to| ==> |r| <= |s|
    ensures (forall i :: 0 <= i < |s| ==> s[i] != from[0]) ==> r == s
    decreases |s|
  {
    if |s| < |from| then s
    else if s[..|from|] == from then to + Replace(s[|from|..], from, to)
    else [s[0]] + Replace(s[1..], from, to)
  }

  /** The four rewrites escape_ignores applies to one value, in its order. */
  function Unescape(s: string): string
  {
    var n := Replace(s, "\\n", "\n");
    var n := Replace(n, "\\r", "\r");
    var n := Replace(n, "\\t", "\t");
    Replace(n, "\\'", "'")
  }

  /**
   * escape_ignores: every ignore value given on the command line is rewritten
   * by Unescape; the list keeps its length and its order.
   */
  method EscapeIgnores(ignoreValues: seq<string>) returns (newValues: seq<string>)
    ensures |newValues| == |ignoreValues|
    ensures forall i :: 0 <= i < |ignoreValues| ==> newValues[i] == Unescape(ignoreValues[i])
    ensures forall i :: 0 <= i < |ignoreValues| ==> |newValues[i]| <= |ignoreValues[i]|
    ensures forall i :: 0 <= i < |ignoreValues| && '\\' !in ignoreValues[i] ==>
              newValues[i] == ignoreValues[i]
  {
    newValues := [];
    for k := 0 to |ignoreValues|
      invariant |newValues| == k
      invariant forall i :: 0 <= i < k ==> newValues[i] == Unescape(ignoreValues[i])
    {
      var ele := ignoreValues[k];
      var n := Replace(ele, "\\n", "\n");
      n := Replace(n, "\\r", "\r");
      n := Replace(n, "\\t", "\t");
      n := Replace(n, "\\'", "'");
      newValues := newValues + [n];
    }
    forall i | 0 <= i < |ignoreValues|
      ensures |newValues[i]| <= |ignoreValues[i]|
      ensures '\\' !in ignoreValues[i] ==> newValues[i] == ignoreValues[i]
    {
      UnescapeShortens(ignoreValues[i]);
    }
  }

  /** Each rewrite turns two characters into one, so Unescape never lengthens. */
  lemma UnescapeShortens(s: string)
    ensures |Unescape(s)| <= |s|
    ensures '\\' !in s ==> Unescape(s) == s
  {
    var n1 := Replace(s, "\\n", "\n");
    var n2 := Replace(n1, "\\r", "\r");
    var n3 := Replace(n2, "\\t", "\t");
    if '\\' !in s {
      assert n1 == s;
      assert n2 == s;
      assert n3 == s;
    }
  }

  /** Writes the character `r` as the two-character escape backslash-`c`. */
  function Escape(s: string, c: char, r: char): (t: string)
    ensures |t| >= |s|
  {
    if s == [] then []
    else (if s[0] == r then ['\\', c] else [s[0]]) + Escape(s[1..], c, r)
  }

  /** No backslash in `s` is directly followed by `c`. */
  predicate NoEscape(s: string, c: char)
  {
    forall i :: 0 <= i < |s| - 1 ==> !(s[i] == '\\' && s[i + 1] == c)
  }

  lemma NoEscapeTail(s: string, c: char)
    requires s != [] && NoEscape(s, c)
    ensures NoEscape(s[1..], c)
  {
    forall i | 0 <= i < |s[1..]| - 1
      ensures !(s[1..][i] == '\\' && s[1..][i + 1] == c)
    {
      assert s[1..][i] == s[i + 1] && s[1..][i + 1] == s[i + 2];
    }
  }

  /** Undoing one escape: the rewrite of backslash-`c` to `r` inverts Escape. */
  lemma {:induction false} ReplaceEscape(s: string, c: char, r: char)
    requires c != '\\' && r != '\\'
    requires NoEscape(s, c)
    ensures Replace(Escape(s, c, r), ['\\', c], [r]) == s
    decreases |s|
  {
    if s != [] {
      var rest := Escape(s[1..], c, r);
      NoEscapeTail(s, c);
      ReplaceEscape(s[1..], c, r);
      if s[0] == r {
        var e := ['\\', c] + rest;
        assert e[..2] == ['\\', c];
        assert e[2..] == rest;
      } else {
        var e := [s[0]] + rest;
        EscapeHead(s, c, r);
        assert e[1..] == rest;
      }
    }
  }

  /** Escaped text whose first character is not `r` does not start with backslash-`c`. */
  lemma EscapeHead(s: string, c: char, r: char)
    requires c != '\\' && r != '\\'
    requires NoEscape(s, c)
    requires s != [] && s[0] != r
    ensures Escape(s, c, r) == [s[0]] + Escape(s[1..], c, r)
    ensures |Escape(s, c, r)| < 2 || Escape(s, c, r)[..2] != ['\\', c]
  {
    var rest := Escape(s[1..], c, r);
    var e := [s[0]] + rest;
    if |e| >= 2 && s[0] == '\\' {
      // the next character is not `c`: either it starts a fresh escape
      // (a backslash) or it is s[1], which is not `c`
      assert s[1..] != [];
      assert e[1] == rest[0];
      assert rest[0] == (if s[1] == r then '\\' else s[1]);
      assert e[..2] != ['\\', c];
    } else if |e| >= 2 {
      assert e[..2][0] == s[0];
    }
  }

  /** Escaping some other character keeps "no backslash before `c`". */
  lemma {:induction false} EscapeKeepsNoEscape(s: string, c: char, c': char, r': char)
    requires c != c' && c != '\\' && c' != '\\' && r' != '\\'
    requires NoEscape(s, c)
    ensures NoEscape(Escape(s, c', r'), c)
    decreases |s|
  {
    if s != [] {
      NoEscapeTail(s, c);
      EscapeKeepsNoEscape(s[1..], c, c', r');
      var head := if s[0] == r' then ['\\', c'] else [s[0]];
      var rest := Escape(s[1..], c', r');
      var e := head + rest;
      assert e == Escape(s, c', r');
      forall i | 0 <= i < |e| - 1
        ensures !(e[i] == '\\' && e[i + 1] == c)
      {
        if i >= |head| {
          assert e[i] == rest[i - |head|] && e[i + 1] == rest[i + 1 - |head|];
        } else if i + 1 < |head| {
        } else if e[i] == '\\' {
          // e[i] is the last character of head and a backslash, so s[0] is
          // a backslash and not r'; the next character comes from s[1]
          assert s[0] != r' && head == [s[0]] && i == 0;
          assert rest != [] && s[1..] != [];
          assert e[i + 1] == rest[0];
          assert rest[0] == (if s[1] == r' then '\\' else s[1]);
        }
      }
    }
  }

  /**
   * How a response containing control characters is written on the command
   * line: newline, CR, tab and `'` become backslash-n, -r, -t and -'.
   */
  function EscapeForCli(s: string): string
  {
    var a := Escape(s, '\'', '\'');
    var b := Escape(a, 't', '\t');
    var c := Escape(b, 'r', '\r');
    Escape(c, 'n', '\n')
  }

  /**
   * An ignore value written with escapes stands for the response it escapes:
   * for any response without a backslash, unescaping its escaped form gives
   * it back.
   */
  lemma UnescapeEscapeForCli(s: string)
    requires '\\' !in s
    ensures Unescape(EscapeForCli(s)) == s
  {
    var a := Escape(s, '\'', '\'');
    var b := Escape(a, 't', '\t');
    var c := Escape(b, 'r', '\r');
    var d := Escape(c, 'n', '\n');
    assert forall x :: NoEscape(s, x);
    EscapeKeepsNoEscape(s, 't', '\'', '\'');
    EscapeKeepsNoEscape(s, 'r', '\'', '\'');
    EscapeKeepsNoEscape(s, 'n', '\'', '\'');
    EscapeKeepsNoEscape(a, 'r', 't', '\t');
    EscapeKeepsNoEscape(a, 'n', 't', '\t');
    EscapeKeepsNoEscape(b, 'n', 'r', '\r');
    ReplaceEscape(c, 'n', '\n');
    ReplaceEscape(b, 'r', '\r');
    ReplaceEscape(a, 't', '\t');
    ReplaceEscape(s, '\'', '\'');
  }

  // ---------------------------------------------------------------------------
  // Wordlist statistics: get_wordlist_info
  // ---------------------------------------------------------------------------

  /**
   * The "max length" get_wordlist_info computes, folded left to right over the
   * line lengths: a line longer than the value so far raises it by one only.
   */
  function BumpedMax(lengths: seq<nat>): (m: nat)
    ensures m <= |lengths|
  {
    if lengths == [] then 0
    else
      var m := BumpedMax(lengths[..|lengths| - 1]);
      if lengths[|lengths| - 1] > m then m + 1 else m
  }

  /** The length of the longest line, or 0 for an empty wordlist. */
  function Longest(lengths: seq<nat>): (m: nat)
    ensures forall i :: 0 <= i < |lengths| ==> lengths[i] <= m
    ensures lengths == [] ==> m == 0
    ensures lengths != [] ==> m in lengths
  {
    if lengths == [] then 0
    else
      var m := Longest(lengths[..|lengths| - 1]);
      var last := lengths[|lengths| - 1];
      assert lengths == lengths[..|lengths| - 1] + [last];
      if last > m then last else m
  }

  /** The index of the first line that fails to read, or |lines|. */
  function FirstFailure(lines: seq<Result<nat, IoError>>): (k: nat)
    ensures k <= |lines|
    ensures forall j :: 0 <= j < k ==> lines[j].Ok?
    ensures k < |lines| ==> lines[k].Err?
  {
    if lines == [] then 0
    else if lines[0].Err? then 0
    else 1 + FirstFailure(lines[1..])
  }

  /** The byte lengths of the lines, a failed line counting as empty. */
  function Sizes(lines: seq<Result<nat, IoError>>): (sizes: seq<nat>)
    ensures |sizes| == |lines|
    ensures forall j :: 0 <= j < |lines| && lines[j].Ok? ==> sizes[j] == lines[j].value
  {
    if lines == [] then []
    else
      var last := lines[|lines| - 1];
      Sizes(lines[..|lines| - 1]) + [if last.Ok? then last.value else 0]
  }

  /**
   * get_wordlist_info's loop, as written: `lines` is what reading each line
   * of the wordlist gives (its byte length, or an error), `seek` what the
   * rewind gives. The first line error, else the seek error, is returned;
   * otherwise the line count and BumpedMax of the line lengths.
   */
  method WordlistInfo(lines: seq<Result<nat, IoError>>, seek: Option<IoError>)
    returns (r: Result<(nat, nat), IoError>)
    ensures FirstFailure(lines) < |lines| ==> r == Err(lines[FirstFailure(lines)].error)
    ensures FirstFailure(lines) == |lines| && seek.Some? ==> r == Err(seek.value)
    ensures FirstFailure(lines) == |lines| && seek.None? ==>
              r == Ok((|lines|, BumpedMax(Sizes(lines))))
  {
    var count, maxLength, k := 0, 0, 0;
    // `line?` leaves the loop, and the function, at the first failed read
    while k < |lines| && lines[k].Ok?
      invariant k <= FirstFailure(lines)
      invariant count == k
      invariant maxLength == BumpedMax(Sizes(lines[..k]))
    {
      var size := lines[k].value;
      SizesStep(lines, k);
      BumpedMaxAppend(Sizes(lines[..k]), size);
      count := count + 1;
      if size > maxLength {
        maxLength := maxLength + 1;
      }
      k := k + 1;
    }
    if k < |lines| {
      return Err(lines[k].error);
    }
    assert lines[..k] == lines;
    if seek.Some? {
      return Err(seek.value);
    }
    r := Ok((count, maxLength));
  }

  lemma SizesStep(lines: seq<Result<nat, IoError>>, k: nat)
    requires k < |lines| && lines[k].Ok?
    ensures Sizes(lines[..k + 1]) == Sizes(lines[..k]) + [lines[k].value]
  {
    assert lines[..k + 1][..k] == lines[..k];
  }

  /** The fold's step: a line longer than the value so far raises it by one. */
  lemma BumpedMaxAppend(lengths: seq<nat>, size: nat)
    ensures BumpedMax(lengths + [size])
            == if size > BumpedMax(lengths) then BumpedMax(lengths) + 1 else BumpedMax(lengths)
  {
    assert (lengths + [size])[..|lengths|] == lengths;
  }

  /** The bumped maximum never decreases as more lines are read. */
  lemma {:induction false} BumpedMaxMonotone(lengths: seq<nat>, i: nat, j: nat)
    requires i <= j <= |lengths|
    ensures BumpedMax(lengths[..i]) <= BumpedMax(lengths[..j]) <= BumpedMax(lengths[..i]) + (j - i)
    decreases j - i
  {
    if i < j {
      BumpedMaxMonotone(lengths, i, j - 1);
      assert lengths[..j] == lengths[..j - 1] + [lengths[j - 1]];
      BumpedMaxAppend(lengths[..j - 1], lengths[j - 1]);
    }
  }

  /** The bumped maximum never exceeds the longest line. */
  lemma {:induction false} BumpedMaxBelowLongest(lengths: seq<nat>)
    ensures BumpedMax(lengths) <= Longest(lengths)
  {
    if lengths != [] {
      BumpedMaxBelowLongest(lengths[..|lengths| - 1]);
    }
  }

  /**
   * The discrepancy: a wordlist holding the single line "hello" reports a
   * max length of 1 where its longest line has 5 characters.
   */
  lemma BumpedMaxUnderstates()
    ensures BumpedMax([5]) == 1 && Longest([5]) == 5
  {
    assert [5][..0] == [];
  }

  /**
   * The loop as evidently intended: `max_length` is set to a longer line's
   * length, which makes it the length of the longest line.
   */
  method LongestLineLength(lengths: seq<nat>) returns (count: nat, maxLength: nat)
    ensures count == |lengths|
    ensures forall i :: 0 <= i < |lengths| ==> lengths[i] <= maxLength
    ensures lengths == [] ==> maxLength == 0
    ensures lengths != [] ==> exists i :: 0 <= i < |lengths| && lengths[i] == maxLength
  {
    count, maxLength := 0, 0;
    for k := 0 to |lengths|
      invariant count == k
      invariant forall i :: 0 <= i < k ==> lengths[i] <= maxLength
      invariant k == 0 ==> maxLength == 0
      invariant k > 0 ==> exists i :: 0 <= i < k && lengths[i] == maxLength
    {
      var size := lengths[k];
      count := count + 1;
      if size > maxLength {
        maxLength := size;
      }
    }
  }

  // ---------------------------------------------------------------------------
  // One probe: scan_addr
  // ---------------------------------------------------------------------------

  /** The error scan_addr starts from: `Error::new(ErrorKind::Other, "")`. */
  const InitialError: IoError := IoError(Other, "")

  /** The size of the buffer the response is read into. */
  const BufferSize: nat := 1024

  /** The retry budget `fuzz` gives every probe. */
  const Retries: nat := 3

  /**
   * What the socket did in one attempt (the connection is established):
   * the outcome of `write_all`, and the outcome of the single `read`, whose
   * success carries the bytes the peer had delivered.
   */
  datatype Attempt = Attempt(write: Option<IoError>, read: Result<seq<byte>, IoError>)

  /** A probe's result: the payload and the decoded response, or an error. */
  type ScanResult = Result<(string, string), IoError>

  /** The bytes `write_all` is given: the payload, newline-terminated if asked. */
  function WireData(fuzzData: string, newLines: bool): string
  {
    if newLines then fuzzData + "\n" else fuzzData
  }

  /** What one `read` into the 1024-byte buffer takes of the delivered bytes. */
  function Received(delivered: seq<byte>): (b: seq<byte>)
    ensures |b| <= BufferSize && |b| <= |delivered| && b == delivered[..|b|]
    ensures |delivered| <= BufferSize ==> b == delivered
    ensures |delivered| >= BufferSize ==> |b| == BufferSize
  {
    delivered[..Min(|delivered|, BufferSize)]
  }

  /** The index of the first attempt whose read succeeds, or |attempts|. */
  function FirstRead(attempts: seq<Attempt>): (k: nat)
    ensures k <= |attempts|
    ensures forall j :: 0 <= j < k ==> attempts[j].read.Err?
    ensures k < |attempts| ==> attempts[k].read.Ok?
  {
    if attempts == [] then 0
    else if attempts[0].read.Ok? then 0
    else 1 + FirstRead(attempts[1..])
  }

  /**
   * What scan_addr returns when given `retries` attempts: the payload with
   * the decoded response of the first attempt whose read succeeds, else the
   * last error recorded, which is the failed read of the last attempt (write
   * errors are always overwritten) or the initial error when there is none.
   */
  function ProbeResult(fuzzData: string, retries: nat, io: seq<Attempt>,
                       decode: seq<byte> -> string): ScanResult
    requires retries <= |io|
  {
    var k := FirstRead(io[..retries]);
    if k < retries then Ok((fuzzData, decode(Received(io[k].read.value))))
    else if retries == 0 then Err(InitialError)
    else Err(io[retries - 1].read.error)
  }

  /**
   * scan_addr over abstracted socket results: `io[i]` is what attempt i saw,
   * `decode` stands for `String::from_utf8_lossy`, and `sent` lists what each
   * attempt wrote. It makes at most `retries` attempts and stops after the
   * first successful read, whatever that attempt's write did.
   */
  method ScanAddr(fuzzData: string, newLines: bool, retries: nat, io: seq<Attempt>,
                  decode: seq<byte> -> string)
    returns (r: ScanResult, sent: seq<string>)
    requires retries <= |io|
    ensures r == ProbeResult(fuzzData, retries, io, decode)
    ensures |sent| == if FirstRead(io[..retries]) < retries then FirstRead(io[..retries]) + 1 else retries
    ensures forall j :: 0 <= j < |sent| ==> sent[j] == WireData(fuzzData, newLines)
  {
    var err := InitialError;
    sent := [];
    for i := 0 to retries
      invariant |sent| == i
      invariant forall j :: 0 <= j < i ==> sent[j] == WireData(fuzzData, newLines)
      invariant forall j :: 0 <= j < i ==> io[j].read.Err?
      invariant err == if i == 0 then InitialError else io[i - 1].read.error
    {
      // the connection is established (a failure to connect panics)
      var fuzzString := fuzzData;
      if newLines {
        fuzzString := fuzzString + "\n";
      }
      sent := sent + [fuzzString];
      match io[i].write {
        case None =>
        case Some(e) => err := e;
      }
      match io[i].read {
        case Ok(delivered) =>
          assert io[..retries][i] == io[i];
          r := Ok((fuzzData, decode(Received(delivered))));
          return;
        case Err(e) => err := e;
      }
    }
    r := Err(err);
  }

  /** With no retries, scan_addr returns the initial `Other` error. */
  lemma ProbeWithoutRetries(fuzzData: string, io: seq<Attempt>, decode: seq<byte> -> string)
    ensures ProbeResult(fuzzData, 0, io, decode) == Err(InitialError)
  {
  }

  /**
   * The first successful read decides: the result carries the original
   * payload (never the newline-terminated one) and the decoding of at most
   * 1024 of the bytes that read delivered.
   */
  lemma ProbeFirstSuccess(fuzzData: string, retries: nat, io: seq<Attempt>,
                          decode: seq<byte> -> string, k: nat)
    requires k < retries <= |io|
    requires io[k].read.Ok?
    requires forall j :: 0 <= j < k ==> io[j].read.Err?
    ensures ProbeResult(fuzzData, retries, io, decode)
            == Ok((fuzzData, decode(io[k].read.value[..Min(|io[k].read.value|, BufferSize)])))
  {
    assert io[..retries][k] == io[k];
  }

  /** A probe fails only when every read fails, and then with the last one's error. */
  lemma ProbeFailure(fuzzData: string, retries: nat, io: seq<Attempt>, decode: seq<byte> -> string)
    requires 0 < retries <= |io|
    ensures ProbeResult(fuzzData, retries, io, decode).Err?
            <==> forall j :: 0 <= j < retries ==> io[j].read.Err?
    ensures ProbeResult(fuzzData, retries, io, decode).Err? ==>
            ProbeResult(fuzzData, retries, io, decode).error == io[retries - 1].read.error
  {
    var first := FirstRead(io[..retries]);
    if first < retries {
      assert io[..retries][first] == io[first];
    } else {
      forall j | 0 <= j < retries ensures io[j].read.Err? {
        assert io[..retries][j] == io[j];
      }
    }
  }

  /**
   * Write errors never reach the result: two runs whose reads agree return
   * the same, whatever their writes did.
   */
  lemma {:induction false} FirstReadIgnoresWrites(a: seq<Attempt>, b: seq<Attempt>)
    requires |a| == |b|
    requires forall j :: 0 <= j < |a| ==> a[j].read == b[j].read
    ensures FirstRead(a) == FirstRead(b)
  {
    if a != [] && a[0].read.Err? {
      FirstReadIgnoresWrites(a[1..], b[1..]);
    }
  }

  lemma ProbeIgnoresWrites(fuzzData: string, retries: nat, io: seq<Attempt>, io': seq<Attempt>,
                           decode: seq<byte> -> string)
    requires retries <= |io| && retries <= |io'|
    requires forall j :: 0 <= j < retries ==> io[j].read == io'[j].read
    ensures ProbeResult(fuzzData, retries, io, decode) == ProbeResult(fuzzData, retries, io', decode)
  {
    FirstReadIgnoresWrites(io[..retries], io'[..retries]);
  }

  // ---------------------------------------------------------------------------
  // Classifying a result: the match in fuzz
  // ---------------------------------------------------------------------------

  /** `ignore_values.iter().any(|s| s.eq(response))`. */
  function IgnoredBy(ignoreValues: seq<string>, response: string): (b: bool)
    ensures b <==> exists i :: 0 <= i < |ignoreValues| && ignoreValues[i] == response
  {
    if ignoreValues == [] then false
    else ignoreValues[0] == response || IgnoredBy(ignoreValues[1..], response)
  }

  /**
   * The number of spaces printed after the payload: a payload field shorter
   * than the max length capped at 40 is padded up to that width, so the
   * responses line up; a field at least that wide gets no padding.
   */
  function Padding(maxLength: MaxLength, payloadLen: StrLen): (filler: nat)
    ensures filler <= 40
    ensures payloadLen < Min(maxLength, 40) ==> payloadLen + filler == Min(maxLength, 40)
    ensures payloadLen >= Min(maxLength, 40) ==> filler == 0
  {
    // both operands fit in i64, and `l` is at most 40, so nothing overflows
    var l: int := maxLength;
    var l := if l > 40 then 40 else l;
    var fillerCount := l - payloadLen;
    if fillerCount < 0 then 0 else fillerCount
  }

  /**
   * What fuzz prints about a completed probe: a Found line with the payload,
   * the padding after it and the response as printed, or the error (with the
   * hint about the batch size that follows it).
   */
  datatype Report = Found(payload: string, padding: nat, response: string) | Error(error: IoError)

  /** The response as printed: every newline written as backslash-n. */
  function Printable(response: string): string
  {
    Replace(response, "\n", "\\n")
  }

  /** A printed response fits on one line. */
  lemma {:induction false} PrintableHasNoNewline(response: string)
    ensures '\n' !in Printable(response)
    decreases |response|
  {
    if response != [] {
      PrintableHasNoNewline(response[1..]);
    }
  }

  /**
   * What fuzz prints for one result: an error always; a success only when its
   * response equals no ignore value, with the payload, its padding and the
   * printable response. `displayLen` stands for the byte length of the
   * formatted payload field.
   */
  function Classify(result: ScanResult, ignoreValues: seq<string>, maxLength: MaxLength,
                    displayLen: string -> StrLen): (out: Option<Report>)
    ensures result.Err? ==> out == Some(Error(result.error))
    ensures result.Ok? ==> (out.Some? <==> result.value.1 !in ignoreValues)
    ensures result.Ok? && out.Some? ==>
              out.value == Found(result.value.0, Padding(maxLength, displayLen(result.value.0)),
                                 Printable(result.value.1))
  {
    match result
    case Ok(response) =>
      if !IgnoredBy(ignoreValues, response.1) then
        Some(Found(response.0, Padding(maxLength, displayLen(response.0)), Printable(response.1)))
      else None
    case Err(e) => Some(Error(e))
  }

  /** The lines printed for one result: none or one. */
  function Printed(result: ScanResult, ignoreValues: seq<string>, maxLength: MaxLength,
                   displayLen: string -> StrLen): seq<Report>
  {
    match Classify(result, ignoreValues, maxLength, displayLen)
    case Some(line) => [line]
    case None => []
  }

  /** Everything printed for a sequence of results, in their order. */
  function Reports(results: seq<ScanResult>, ignoreValues: seq<string>, maxLength: MaxLength,
                   displayLen: string -> StrLen): (out: seq<Report>)
    ensures |out| <= |results|
  {
    if results == [] then []
    else
      Reports(results[..|results| - 1], ignoreValues, maxLength, displayLen)
        + Printed(results[|results| - 1], ignoreValues, maxLength, displayLen)
  }

  /** The number of successful results: what `done` counts. */
  function OkCount(results: seq<ScanResult>): (n: nat)
    ensures n <= |results|
  {
    if results == [] then 0
    else OkCount(results[..|results| - 1]) + (if results[|results| - 1].Ok? then 1 else 0)
  }

  /** The number of successful results whose response is an ignore value. */
  function SuppressedCount(results: seq<ScanResult>, ignoreValues: seq<string>): (n: nat)
  {
    if results == [] then 0
    else
      var last := results[|results| - 1];
      SuppressedCount(results[..|results| - 1], ignoreValues)
        + (if last.Ok? && last.value.1 in ignoreValues then 1 else 0)
  }

  /** The number of Found lines among the printed ones. */
  function FoundCount(reports: seq<Report>): (n: nat)
  {
    if reports == [] then 0
    else FoundCount(reports[..|reports| - 1]) + (if reports[|reports| - 1].Found? then 1 else 0)
  }

  lemma FoundCountAppend(reports: seq<Report>, line: Report)
    ensures FoundCount(reports + [line]) == FoundCount(reports) + (if line.Found? then 1 else 0)
  {
    assert (reports + [line])[..|reports|] == reports;
  }

  /**
   * Every result is printed except the suppressed successes, and `done`
   * counts the printed successes and the suppressed ones alike.
   */
  lemma {:induction false} ReportsAccount(results: seq<ScanResult>, ignoreValues: seq<string>,
                                          maxLength: MaxLength, displayLen: string -> StrLen)
    ensures |Reports(results, ignoreValues, maxLength, displayLen)|
            + SuppressedCount(results, ignoreValues) == |results|
    ensures FoundCount(Reports(results, ignoreValues, maxLength, displayLen))
            + SuppressedCount(results, ignoreValues) == OkCount(results)
  {
    if results != [] {
      var before, last := results[..|results| - 1], results[|results| - 1];
      ReportsAccount(before, ignoreValues, maxLength, displayLen);
      var earlier := Reports(before, ignoreValues, maxLength, displayLen);
      assert Reports(results, ignoreValues, maxLength, displayLen)
          == earlier + Printed(last, ignoreValues, maxLength, displayLen);
      var out := Classify(last, ignoreValues, maxLength, displayLen);
      if out.Some? {
        assert Printed(last, ignoreValues, maxLength, displayLen) == [out.value];
        FoundCountAppend(earlier, out.value);
      } else {
        assert Printed(last, ignoreValues, maxLength, displayLen) == [];
        assert earlier + [] == earlier;
      }
    }
  }

  // ---------------------------------------------------------------------------
  // The window of in-flight probes: fuzz
  // ---------------------------------------------------------------------------

  /** The line numbers 0 .. n-1, in order. */
  function Indices(n: nat): (s: seq<nat>)
    ensures |s| == n
    ensures forall i :: 0 <= i < n ==> s[i] == i
  {
    if n == 0 then [] else Indices(n - 1) + [n - 1]
  }

  /** Every line number below n occurs once in Indices(n), and no other. */
  lemma {:induction false} IndicesOccurOnce(n: nat)
    ensures forall k: nat :: multiset(Indices(n))[k] == if k < n then 1 else 0
  {
    if n > 0 {
      IndicesOccurOnce(n - 1);
      assert multiset(Indices(n)) == multiset(Indices(n - 1)) + multiset{(n - 1) as nat};
    }
  }

  /**
   * The scheduling state of fuzz: how many lines have been taken from the
   * wordlist (the rest is still to come, in order), the line numbers of the
   * probes in flight, and the completed line numbers in completion order.
   */
  datatype Window = Window(next: nat, inFlight: multiset<nat>, completed: seq<nat>)

  /**
   * Every line taken is in flight or completed, exactly once; no more than
   * `batchSize` probes are in flight, and exactly as many as the batch size
   * allows of the lines not yet completed.
   */
  ghost predicate WindowInvariant(w: Window, lineCount: nat, batchSize: nat)
  {
    w.next <= lineCount &&
    (batchSize == 0 ==> w.next == 0) &&
    w.inFlight + multiset(w.completed) == multiset(Indices(w.next)) &&
    |w.inFlight| == Min(batchSize, lineCount - |w.completed|) &&
    (forall i, j :: 0 <= i < j < |w.completed| ==> w.completed[i] != w.completed[j]) &&
    (forall i :: 0 <= i < |w.completed| ==> w.completed[i] < w.next)
  }

  /**
   * fuzz's filling loop: it launches the first lines of the wordlist, one per
   * round, until `batchSize` are in flight or the wordlist runs out. Returns
   * how many lines were taken and the multiset of in-flight line numbers.
   */
  method Fill(lineCount: nat, batchSize: U16) returns (next: nat, inFlight: multiset<nat>)
    ensures next == Min(batchSize, lineCount)
    ensures inFlight == multiset(Indices(next))
  {
    next := 0;
    inFlight := multiset{};
    for b := 0 to batchSize
      invariant next == Min(b, lineCount)
      invariant inFlight == multiset(Indices(next))
    {
      if next < lineCount {
        inFlight := inFlight + multiset{next};
        next := next + 1;
      } else {
        break;
      }
    }
  }

  /** The filling loop establishes the invariant. */
  lemma FilledWindow(next: nat, lineCount: nat, batchSize: nat)
    requires next == Min(batchSize, lineCount)
    ensures WindowInvariant(Window(next, multiset(Indices(next)), []), lineCount, batchSize)
  {
  }

  /**
   * One turn of fuzz's `while let` loop: the probe of line k completes and at
   * most one more line, the next one of the wordlist, is launched.
   */
  function Completion(w: Window, k: nat, lineCount: nat): Window
    requires k in w.inFlight
  {
    var rest := w.inFlight - multiset{k};
    if w.next < lineCount then Window(w.next + 1, rest + multiset{w.next}, w.completed + [k])
    else Window(w.next, rest, w.completed + [k])
  }

  /**
   * A probe in flight has not completed and belongs to a line already taken;
   * the window and the completed lines together count the lines taken.
   */
  lemma CompletedOnce(w: Window, k: nat, lineCount: nat, batchSize: nat)
    requires WindowInvariant(w, lineCount, batchSize)
    requires k in w.inFlight
    ensures k !in w.completed && k < w.next
    ensures |w.inFlight| + |w.completed| == w.next
  {
    IndicesOccurOnce(w.next);
    var taken := multiset(Indices(w.next));
    assert taken[k] == w.inFlight[k] + multiset(w.completed)[k];
    TakenCount(w.inFlight, w.completed, w.next);
  }

  /**
   * Any completion keeps the invariant, so the window never holds more than
   * `batchSize` probes; the completed line had not completed before.
   */
  lemma CompletionKeepsInvariant(w: Window, k: nat, lineCount: nat, batchSize: nat)
    requires WindowInvariant(w, lineCount, batchSize)
    requires k in w.inFlight
    ensures k !in w.completed && k < lineCount
    ensures WindowInvariant(Completion(w, k, lineCount), lineCount, batchSize)
  {
    CompletedOnce(w, k, lineCount, batchSize);
    CompletionAccounts(w, k, lineCount);
    CompletionSize(w, k, lineCount, batchSize);
    AppendFresh(w.completed, k, Completion(w, k, lineCount).next);
  }

  /** After a completion, every line taken is still in flight or completed. */
  lemma CompletionAccounts(w: Window, k: nat, lineCount: nat)
    requires k in w.inFlight
    requires w.inFlight + multiset(w.completed) == multiset(Indices(w.next))
    ensures Completion(w, k, lineCount).inFlight + multiset(Completion(w, k, lineCount).completed)
            == multiset(Indices(Completion(w, k, lineCount).next))
  {
    var rest := w.inFlight - multiset{k};
    Retired(w.inFlight, w.completed, k, multiset(Indices(w.next)));
    if w.next < lineCount {
      Launched(rest, w.completed + [k], w.next);
    }
  }

  /** A completing probe moves from the window to the completed lines. */
  lemma Retired(inFlight: multiset<nat>, completed: seq<nat>, k: nat, taken: multiset<nat>)
    requires k in inFlight
    requires inFlight + multiset(completed) == taken
    ensures (inFlight - multiset{k}) + multiset(completed + [k]) == taken
  {
    assert multiset(completed + [k]) == multiset(completed) + multiset{k};
  }

  /** Launching the next line keeps every line taken in flight or completed. */
  lemma Launched(inFlight: multiset<nat>, completed: seq<nat>, next: nat)
    requires inFlight + multiset(completed) == multiset(Indices(next))
    ensures (inFlight + multiset{next}) + multiset(completed) == multiset(Indices(next + 1))
  {
    assert Indices(next + 1) == Indices(next) + [next];
  }

  /**
   * After a completion the window is as full as the batch size allows of the
   * lines not yet completed: a line is launched exactly when one remains.
   */
  lemma CompletionSize(w: Window, k: nat, lineCount: nat, batchSize: nat)
    requires k in w.inFlight
    requires w.next <= lineCount
    requires |w.inFlight| + |w.completed| == w.next
    requires |w.inFlight| == Min(batchSize, lineCount - |w.completed|)
    ensures |Completion(w, k, lineCount).inFlight|
            == Min(batchSize, lineCount - |Completion(w, k, lineCount).completed|)
  {
    assert |w.inFlight - multiset{k}| == |w.inFlight| - 1;
  }

  /** Appending a line number not yet completed keeps the completed ones distinct. */
  lemma AppendFresh(completed: seq<nat>, k: nat, bound: nat)
    requires forall i, j :: 0 <= i < j < |completed| ==> completed[i] != completed[j]
    requires forall i :: 0 <= i < |completed| ==> completed[i] < bound
    requires k !in completed && k < bound
    ensures forall i, j :: 0 <= i < j < |completed + [k]| ==> (completed + [k])[i] != (completed + [k])[j]
    ensures forall i :: 0 <= i < |completed + [k]| ==> (completed + [k])[i] < bound
  {
  }

  /** A nonempty window has a probe that can complete. */
  lemma NonEmptyHasElement(m: multiset<nat>)
    requires m != multiset{}
    ensures exists k :: k in m
  {
  }

  /**
   * `async_futures.next().await` followed by `lines.next()`: some in-flight
   * probe completes, in no particular order, and the next line, if any, is
   * launched in its place. Each turn brings the scan closer to its end.
   */
  method AwaitNext(w: Window, lineCount: nat, batchSize: nat) returns (k: nat, w': Window)
    requires WindowInvariant(w, lineCount, batchSize)
    requires w.inFlight != multiset{}
    ensures k in w.inFlight && k !in w.completed && k < lineCount
    ensures |w.inFlight| == Min(batchSize, lineCount - |w.completed|)
    ensures w' == Completion(w, k, lineCount) && w'.completed == w.completed + [k]
    ensures WindowInvariant(w', lineCount, batchSize)
    ensures lineCount - w'.next + |w'.inFlight| < lineCount - w.next + |w.inFlight|
  {
    NonEmptyHasElement(w.inFlight);
    k :| k in w.inFlight;
    CompletionKeepsInvariant(w, k, lineCount, batchSize);
    w' := Completion(w, k, lineCount);
  }

  /**
   * Once the window has drained, the completed lines are exactly the lines
   * taken; with a positive batch size that is every line, each once.
   */
  lemma AllCompleted(w: Window, lineCount: nat, batchSize: nat)
    requires w.next <= lineCount && (batchSize == 0 ==> w.next == 0)
    requires w.inFlight + multiset(w.completed) == multiset(Indices(w.next))
    requires |w.inFlight| == Min(batchSize, lineCount - |w.completed|)
    requires w.inFlight == multiset{}
    ensures batchSize == 0 ==> w.completed == []
    ensures batchSize > 0 ==> multiset(w.completed) == multiset(Indices(lineCount))
    ensures batchSize > 0 ==> |w.completed| == lineCount
  {
    TakenCount(w.inFlight, w.completed, w.next);
    assert w.inFlight + multiset(w.completed) == multiset(w.completed);
  }

  /** The lines in flight and the completed ones together number the lines taken. */
  lemma TakenCount(inFlight: multiset<nat>, completed: seq<nat>, next: nat)
    requires inFlight + multiset(completed) == multiset(Indices(next))
    ensures |inFlight| + |completed| == next
  {
    assert |multiset(Indices(next))| == |Indices(next)|;
  }

  /** The result each line's probe returns, by line number. */
  ghost function Outcomes(lines: seq<string>, io: seq<seq<Attempt>>,
                          decode: seq<byte> -> string): (outcomes: seq<ScanResult>)
    requires |io| == |lines|
    requires forall k :: 0 <= k < |io| ==> |io[k]| >= Retries
    ensures |outcomes| == |lines|
  {
    if lines == [] then []
    else
      var n := |lines| - 1;
      Outcomes(lines[..n], io[..n], decode) + [ProbeResult(lines[n], Retries, io[n], decode)]
  }

  lemma {:induction false} OutcomeAt(lines: seq<string>, io: seq<seq<Attempt>>,
                                     decode: seq<byte> -> string, k: nat)
    requires |io| == |lines|
    requires forall j :: 0 <= j < |io| ==> |io[j]| >= Retries
    requires k < |lines|
    ensures Outcomes(lines, io, decode)[k] == ProbeResult(lines[k], Retries, io[k], decode)
  {
    var n := |lines| - 1;
    if k < n {
      OutcomeAt(lines[..n], io[..n], decode, k);
    }
  }

  /** The line numbers in `among` whose probe succeeds. */
  ghost function SucceededAmong(among: seq<nat>, outcomes: seq<ScanResult>): set<nat>
  {
    set k | k in among && k < |outcomes| && outcomes[k].Ok?
  }

  /**
   * The `match result` arm of fuzz's loop: a success increments `done` and is
   * printed unless ignored; an error is printed and leaves `done` alone.
   */
  method HandleResult(result: ScanResult, ignoreValues: seq<string>, maxLength: MaxLength,
                      displayLen: string -> StrLen, done: nat, reports: seq<Report>)
    returns (done': nat, reports': seq<Report>)
    ensures done' == done + (if result.Ok? then 1 else 0)
    ensures reports' == reports + Printed(result, ignoreValues, maxLength, displayLen)
  {
    done', reports' := done, reports;
    match result {
      case Ok(response) =>
        done' := done' + 1;
        if !IgnoredBy(ignoreValues, response.1) {
          var filler := Padding(maxLength, displayLen(response.0));
          reports' := reports' + [Found(response.0, filler, Printable(response.1))];
        }
      case Err(e) =>
        reports' := reports' + [Error(e)];
    }
  }

  /**
   * fuzz's bookkeeping once the lines in `completed` have completed: their
   * results in completion order, `done` counting the successes among them,
   * everything printed for them, and the window size seen before each one.
   */
  ghost predicate Accounted(completed: seq<nat>, outcomes: seq<ScanResult>,
                            results: seq<ScanResult>, done: nat, reports: seq<Report>,
                            window: seq<nat>, lineCount: nat, batchSize: nat,
                            ignoreValues: seq<string>, maxLength: MaxLength, displayLen: string -> StrLen)
  {
    |results| == |completed| && |window| == |completed| &&
    (forall i :: 0 <= i < |completed| ==> completed[i] < |outcomes| && results[i] == outcomes[completed[i]]) &&
    done == OkCount(results) &&
    done == |SucceededAmong(completed, outcomes)| &&
    reports == Reports(results, ignoreValues, maxLength, displayLen) &&
    (forall i :: 0 <= i < |window| ==> window[i] == Min(batchSize, lineCount - i))
  }

  /** Completing a line that had not completed keeps the bookkeeping right. */
  lemma AccountedStep(completed: seq<nat>, outcomes: seq<ScanResult>,
                      results: seq<ScanResult>, done: nat, reports: seq<Report>,
                      window: seq<nat>, lineCount: nat, batchSize: nat,
                      ignoreValues: seq<string>, maxLength: MaxLength, displayLen: string -> StrLen,
                      k: nat, result: ScanResult, done': nat, reports': seq<Report>, size: nat)
    requires Accounted(completed, outcomes, results, done, reports, window, lineCount, batchSize,
                       ignoreValues, maxLength, displayLen)
    requires k < |outcomes| && k !in completed && result == outcomes[k]
    requires done' == done + (if result.Ok? then 1 else 0)
    requires reports' == reports + Printed(result, ignoreValues, maxLength, displayLen)
    requires size == Min(batchSize, lineCount - |completed|)
    ensures Accounted(completed + [k], outcomes, results + [result], done', reports',
                      window + [size], lineCount, batchSize,
                      ignoreValues, maxLength, displayLen)
  {
    OkCountAppend(results, result);
    ReportsAppend(results, result, ignoreValues, maxLength, displayLen);
    SucceededAppend(completed, k, outcomes);
  }

  lemma OkCountAppend(results: seq<ScanResult>, result: ScanResult)
    ensures OkCount(results + [result]) == OkCount(results) + (if result.Ok? then 1 else 0)
  {
    assert (results + [result])[..|results|] == results;
  }

  lemma ReportsAppend(results: seq<ScanResult>, result: ScanResult, ignoreValues: seq<string>,
                      maxLength: MaxLength, displayLen: string -> StrLen)
    ensures Reports(results + [result], ignoreValues, maxLength, displayLen)
            == Reports(results, ignoreValues, maxLength, displayLen)
               + Printed(result, ignoreValues, maxLength, displayLen)
  {
    assert (results + [result])[..|results|] == results;
  }

  /** A line not completed before adds to the successes exactly when its probe succeeded. */
  lemma SucceededAppend(completed: seq<nat>, k: nat, outcomes: seq<ScanResult>)
    requires k < |outcomes| && k !in completed
    ensures |SucceededAmong(completed + [k], outcomes)|
            == |SucceededAmong(completed, outcomes)| + (if outcomes[k].Ok? then 1 else 0)
  {
    var before := SucceededAmong(completed, outcomes);
    if outcomes[k].Ok? {
      assert SucceededAmong(completed + [k], outcomes) == before + {k};
    } else {
      assert SucceededAmong(completed + [k], outcomes) == before;
    }
  }

  /** `scan_addr` for line k, as launched by fuzz with its three retries. */
  method ProbeLine(lines: seq<string>, io: seq<seq<Attempt>>, newLines: bool,
                   decode: seq<byte> -> string, k: nat) returns (result: ScanResult)
    requires |io| == |lines|
    requires forall j :: 0 <= j < |io| ==> |io[j]| >= Retries
    requires k < |lines|
    ensures result == Outcomes(lines, io, decode)[k]
  {
    var sent;
    result, sent := ScanAddr(lines[k], newLines, Retries, io[k], decode);
    OutcomeAt(lines, io, decode, k);
  }

  /**
   * The probe of line k, which had not completed, returns and its result is
   * handled: the bookkeeping now covers line k too.
   */
  method Record(lines: seq<string>, io: seq<seq<Attempt>>, batchSize: U16, newLines: bool,
                ignoreValues: seq<string>, maxLength: MaxLength,
                decode: seq<byte> -> string, displayLen: string -> StrLen,
                completed: seq<nat>, k: nat, inFlight: nat,
                results: seq<ScanResult>, done: nat, reports: seq<Report>, ghost window: seq<nat>)
    returns (results': seq<ScanResult>, done': nat, reports': seq<Report>, ghost window': seq<nat>)
    requires |io| == |lines|
    requires forall j :: 0 <= j < |io| ==> |io[j]| >= Retries
    requires k < |lines| && k !in completed
    requires inFlight == Min(batchSize, |lines| - |completed|)
    requires Accounted(completed, Outcomes(lines, io, decode), results, done, reports, window,
                       |lines|, batchSize, ignoreValues, maxLength, displayLen)
    ensures Accounted(completed + [k], Outcomes(lines, io, decode), results', done', reports', window',
                      |lines|, batchSize, ignoreValues, maxLength, displayLen)
  {
    var result := ProbeLine(lines, io, newLines, decode, k);
    done', reports' := HandleResult(result, ignoreValues, maxLength, displayLen, done, reports);
    AccountedStep(completed, Outcomes(lines, io, decode), results, done, reports, window,
                  |lines|, batchSize, ignoreValues, maxLength, displayLen, k, result, done', reports', inFlight);
    results' := results + [result];
    window' := window + [inFlight];
  }

  /**
   * One turn of fuzz's loop: await some in-flight probe, launch the next line
   * in its place, and handle the probe's result.
   */
  method Turn(w: Window, lines: seq<string>, io: seq<seq<Attempt>>, batchSize: U16, newLines: bool,
              ignoreValues: seq<string>, maxLength: MaxLength,
              decode: seq<byte> -> string, displayLen: string -> StrLen,
              results: seq<ScanResult>, done: nat, reports: seq<Report>, ghost window: seq<nat>)
    returns (w': Window, results': seq<ScanResult>, done': nat, reports': seq<Report>,
             ghost window': seq<nat>)
    requires |io| == |lines|
    requires forall k :: 0 <= k < |io| ==> |io[k]| >= Retries
    requires WindowInvariant(w, |lines|, batchSize) && w.inFlight != multiset{}
    requires Accounted(w.completed, Outcomes(lines, io, decode), results, done, reports, window,
                       |lines|, batchSize, ignoreValues, maxLength, displayLen)
    ensures WindowInvariant(w', |lines|, batchSize)
    ensures Accounted(w'.completed, Outcomes(lines, io, decode), results', done', reports', window',
                      |lines|, batchSize, ignoreValues, maxLength, displayLen)
    ensures |lines| - w'.next + |w'.inFlight| < |lines| - w.next + |w.inFlight|
  {
    var k;
    k, w' := AwaitNext(w, |lines|, batchSize);
    results', done', reports', window' := Record(lines, io, batchSize, newLines, ignoreValues,
      maxLength, decode, displayLen, w.completed, k, |w.inFlight|, results, done, reports, window);
  }

  /** Lines completed in any order succeed as the lines in wordlist order do. */
  lemma SameLines(completed: seq<nat>, lineCount: nat, outcomes: seq<ScanResult>)
    requires multiset(completed) == multiset(Indices(lineCount))
    ensures SucceededAmong(completed, outcomes) == SucceededAmong(Indices(lineCount), outcomes)
  {
    forall k ensures k in completed <==> k in Indices(lineCount) {
      assert k in completed <==> k in multiset(completed);
    }
  }

  /**
   * fuzz over abstracted probes: `lines` is the wordlist, `io[k]` what the
   * socket does for line k, and the probe of line k completes when the loop
   * picks it out of the in-flight multiset, in any order. Returns the `done`
   * counter, the line numbers in completion order with their results, what
   * was printed, and (ghost) how many probes were in flight each time a
   * result was awaited.
   */
  method Fuzz(lines: seq<string>, io: seq<seq<Attempt>>, batchSize: U16, newLines: bool,
              ignoreValues: seq<string>, maxLength: MaxLength,
              decode: seq<byte> -> string, displayLen: string -> StrLen)
    returns (done: nat, completed: seq<nat>, results: seq<ScanResult>, reports: seq<Report>,
             ghost window: seq<nat>)
    requires |io| == |lines|
    requires forall k :: 0 <= k < |io| ==> |io[k]| >= Retries
    ensures batchSize == 0 ==> completed == [] && done == 0 && reports == []
    ensures batchSize > 0 ==> multiset(completed) == multiset(Indices(|lines|))
    ensures batchSize > 0 ==> |completed| == |lines|
    ensures forall i, j :: 0 <= i < j < |completed| ==> completed[i] != completed[j]
    ensures |results| == |completed|
    ensures forall i :: 0 <= i < |completed| ==>
              completed[i] < |lines| && results[i] == Outcomes(lines, io, decode)[completed[i]]
    ensures done == OkCount(results)
    ensures batchSize > 0 ==>
              done == |SucceededAmong(Indices(|lines|), Outcomes(lines, io, decode))|
    ensures reports == Reports(results, ignoreValues, maxLength, displayLen)
    ensures |window| == |completed|
    ensures forall i :: 0 <= i < |window| ==> window[i] == Min(batchSize, |lines| - i)
  {
    var next, inFlight := Fill(|lines|, batchSize);
    FilledWindow(next, |lines|, batchSize);
    var w := Window(next, inFlight, []);
    done, results, reports, window := 0, [], [], [];
    // steady state and draining: each completion launches at most one probe
    while w.inFlight != multiset{}
      invariant WindowInvariant(w, |lines|, batchSize)
      invariant Accounted(w.completed, Outcomes(lines, io, decode), results, done, reports, window,
                          |lines|, batchSize, ignoreValues, maxLength, displayLen)
      decreases |lines| - w.next + |w.inFlight|
    {
      w, results, done, reports, window := Turn(w, lines, io, batchSize, newLines, ignoreValues,
        maxLength, decode, displayLen, results, done, reports, window);
    }
    AllCompleted(w, |lines|, batchSize);
    completed := w.completed;
    if batchSize > 0 {
      SameLines(completed, |lines|, Outcomes(lines, io, decode));
    }
  }
}
