/** The custom codec of `PngEncoder`: `compress_data` (its `Custom` arm) wraps
    an escape-coded LZ77 token stream (`simple_deflate`) between the two-byte
    zlib header 0x78 0x9C and a big-endian Adler-32 trailer, the positions
    section 2.2 of RFC 1950 gives them; `decompress_data` and `simple_inflate`
    undo it. The token stream is not DEFLATE (RFC 1951): a byte other than
    0xFF stands for itself, 0xFF 0xFF for a literal 0xFF, and
    0xFF lo hi n for a back-reference of `n` bytes at distance `lo + 256 * hi`. */
module Codec {
  import opened Bytes
  import opened Match
  import Adler32

  /** Why `decompress_data` refuses its input, one per message of the source. */
  datatype Error =
    | TooShort                 // "Compressed data too short"
    | InvalidHeader            // "Invalid zlib header"
    | UnexpectedEnd            // "Unexpected end of data": 0xFF is the last token byte
    | IncompleteBackReference  // "Incomplete back-reference": fewer than 3 bytes follow 0xFF
    | InvalidBackReference     // "Invalid back-reference parameters"
    | ChecksumMismatch         // "Adler32 checksum mismatch"

  datatype Result<T> = Ok(value: T) | Err(error: Error)

  const HEADER: seq<byte> := [0x78, 0x9C]
  const ESCAPE: byte := 255
  const MIN_MATCH := 4

  /** One step of the compressor: a literal byte, or a back-reference that
      copies `length` bytes from `distance` bytes back. */
  datatype Token = Literal(b: byte) | BackRef(distance: nat, length: byte)

  /** The bytes a back-reference appends to `out`: byte `j` is the one at
      `|out| - distance + j % distance`, so every byte copied was already
      there when the copy began, even when `n > distance`. */
  function CopyRun(out: seq<byte>, distance: nat, n: nat): (r: seq<byte>)
    requires 1 <= distance <= |out|
    ensures |r| == n
  {
    seq(n, j requires 0 <= j < n => out[|out| - distance + Wrap(j, distance)])
  }

  /** Bytes that repeat the `distance` bytes before them are what a
      back-reference at that distance copies. */
  lemma RepeatIsCopyRun(data: seq<byte>, pos: nat, distance: nat, l: nat, n: nat)
    requires 1 <= distance <= pos && n <= l && pos + l <= |data|
    requires RepeatsBack(data, pos, distance, l)
    ensures data[pos..pos + n] == CopyRun(data[..pos], distance, n)
  {
    var run := CopyRun(data[..pos], distance, n);
    forall k | 0 <= k < n
      ensures data[pos..pos + n][k] == run[k]
    {
      assert data[pos..pos + n][k] == data[pos + k];
    }
  }

  /** A pair `(distance, length)` that a search at `i` can return: the
      distance reaches no further back than the start of `data`, and the
      length no further forward than its end. */
  predicate Fits(data: seq<byte>, i: nat, m: (nat, nat))
  {
    m.0 <= i && i + m.1 <= |data|
  }

  /** One pair for every position of `data`, each of which fits there. */
  predicate MatchesFit(data: seq<byte>, ms: seq<(nat, nat)>)
  {
    |ms| == |data| && forall p :: 0 <= p < |data| ==> Fits(data, p, ms[p])
  }

  /** The pair `find_longest_match` returns fits its position. */
  lemma LongestMatchFits(data: seq<byte>, i: nat)
    requires i <= |data|
    ensures Fits(data, i, LongestMatch(data, i))
  {
    BestUpToBounds(data, i, Min(i, MAX_DISTANCE));
  }

  lemma AllMatchesFit(data: seq<byte>)
    ensures forall p :: 0 <= p < |data| ==> Fits(data, p, LongestMatch(data, p))
  {
    forall p | 0 <= p < |data|
      ensures Fits(data, p, LongestMatch(data, p))
    {
      LongestMatchFits(data, p);
    }
  }

  /** What `find_longest_match` returns at each position of `data`. The
      coder asks only at the positions it reaches; the answers at the others
      are never used. */
  function Matches(data: seq<byte>): (ms: seq<(nat, nat)>)
    ensures MatchesFit(data, ms)
  {
    AllMatchesFit(data);
    seq(|data|, p requires 0 <= p < |data| => LongestMatch(data, p))
  }

  /** The token `simple_deflate` emits at position `i` when the search there
      returned `m`: a back-reference when the match is at least 4 bytes long
      and the low byte of its distance is not the escape byte, otherwise the
      byte at `i`. */
  function Choose(data: seq<byte>, i: nat, m: (nat, nat)): (t: Token)
    requires i < |data| && Fits(data, i, m)
    ensures t.BackRef? ==> 1 <= t.distance <= i && MIN_MATCH <= t.length && i + t.length <= |data|
  {
    var (d, l) := m;
    if l >= MIN_MATCH && d > 0 && d <= 65535 && d % 256 != ESCAPE then BackRef(d, Min(l, 255))
    else Literal(data[i])
  }

  /** The escape discipline of the compressor: a literal is the byte at `i`;
      a back-reference points into the bytes before `i` and at most 32768
      back, its second byte on the wire is never 0xFF, it claims between 4
      and 255 bytes, and the bytes it claims are exactly the ones it copies. */
  lemma ChooseDiscipline(data: seq<byte>, i: nat)
    requires i < |data|
    ensures Fits(data, i, LongestMatch(data, i))
    ensures var t := Choose(data, i, LongestMatch(data, i));
      && (t.Literal? ==> t.b == data[i])
      && (t.BackRef? ==>
        && 1 <= t.distance <= Min(i, MAX_DISTANCE)
        && t.distance % 256 != ESCAPE
        && MIN_MATCH <= t.length <= 255
        && i + t.length <= |data|
        && data[i..i + t.length] == CopyRun(data[..i], t.distance, t.length))
  {
    LongestMatchSpec(data, i);
    LongestMatchFits(data, i);
    var (d, l) := LongestMatch(data, i);
    if l >= MIN_MATCH && d > 0 && d <= 65535 && d % 256 != ESCAPE {
      RepeatIsCopyRun(data, i, d, l, Min(l, 255));
    }
  }

  /** The wire form of a token. */
  function TokenBytes(t: Token): seq<byte>
  {
    match t
    case Literal(b) => if b == ESCAPE then [ESCAPE, ESCAPE] else [b]
    case BackRef(d, n) => [ESCAPE, d % 256, (d / 256) % 256, n]
  }

  /** How many input bytes a token stands for. */
  function Advance(t: Token): nat
  {
    match t
    case Literal(_) => 1
    case BackRef(_, n) => n
  }

  /** The token stream for `data[i..]`, as the loop of `simple_deflate`
      produces it from position `i` on, where `ms[p]` is what the search
      returns at position `p`. */
  function DeflateFrom(data: seq<byte>, ms: seq<(nat, nat)>, i: nat): seq<byte>
    requires MatchesFit(data, ms) && i <= |data|
    decreases |data| - i
  {
    if i == |data| then []
    else TokenBytes(Choose(data, i, ms[i])) + DeflateFrom(data, ms, i + Advance(Choose(data, i, ms[i])))
  }

  /** One step of the coder: the token chosen at `i`, then the rest. */
  lemma DeflateFromStep(data: seq<byte>, ms: seq<(nat, nat)>, i: nat, t: Token, j: nat)
    requires MatchesFit(data, ms) && i < |data| && t == Choose(data, i, ms[i]) && j == i + Advance(t)
    ensures DeflateFrom(data, ms, i) == TokenBytes(t) + DeflateFrom(data, ms, j)
  {
  }

  function Deflate(data: seq<byte>): seq<byte>
  {
    DeflateFrom(data, Matches(data), 0)
  }

  /** A token never takes more than two bytes per input byte it stands for,
      so the token stream is at most twice as long as the input. */
  lemma {:induction false} DeflateFromLength(data: seq<byte>, ms: seq<(nat, nat)>, i: nat)
    requires MatchesFit(data, ms) && i <= |data|
    ensures |DeflateFrom(data, ms, i)| <= 2 * (|data| - i)
    decreases |data| - i
  {
    if i < |data| {
      var t := Choose(data, i, ms[i]);
      DeflateFromStep(data, ms, i, t, i + Advance(t));
      DeflateFromLength(data, ms, i + Advance(t));
    }
  }

  /** The loop of `simple_inflate` from the remaining token bytes `s` with the
      output `out` produced so far. */
  function Inflate(s: seq<byte>, out: seq<byte>): (r: Result<seq<byte>>)
    ensures r.Ok? ==> out <= r.value
    decreases |s|
  {
    if |s| == 0 then Ok(out)
    else if s[0] == ESCAPE then
      if |s| < 2 then Err(UnexpectedEnd)
      else if s[1] == ESCAPE then Inflate(s[2..], out + [ESCAPE])
      else if |s| < 4 then Err(IncompleteBackReference)
      else
        var distance := (s[1] as int) + 256 * (s[2] as int);
        var length := s[3];
        if distance == 0 || distance > |out| || length == 0 then Err(InvalidBackReference)
        else Inflate(s[4..], out + CopyRun(out, distance, length))
    else Inflate(s[1..], out + [s[0]])
  }

  /** A stream without the escape byte is all literals: it decodes, after
      any output, to that output followed by the stream itself. */
  lemma {:induction false} LiteralStream(s: seq<byte>, out: seq<byte>)
    requires forall k :: 0 <= k < |s| ==> s[k] != ESCAPE
    ensures Inflate(s, out) == Ok(out + s)
    decreases |s|
  {
    if |s| > 0 {
      LiteralStream(s[1..], out + [s[0]]);
      assert out + [s[0]] + s[1..] == out + s;
    } else {
      assert out + s == out;
    }
  }

  /** The bytes a token adds to the output `out`. */
  function Expand(t: Token, out: seq<byte>): seq<byte>
    requires t.BackRef? ==> 1 <= t.distance <= |out|
  {
    match t
    case Literal(b) => [b]
    case BackRef(d, n) => CopyRun(out, d, n)
  }

  /** The decoder reads back one well-formed token: a back-reference whose
      distance is non-zero, fits in two bytes with a low byte other than the
      escape, and does not reach before the start of the output. */
  lemma InflateToken(t: Token, rest: seq<byte>, out: seq<byte>)
    requires t.BackRef? ==> 1 <= t.distance <= |out| && t.distance < 0x1_0000 && t.distance % 256 != ESCAPE && t.length >= 1
    ensures Inflate(TokenBytes(t) + rest, out) == Inflate(rest, out + Expand(t, out))
  {
    match t
    case Literal(b) => InflateLiteral(b, rest, out);
    case BackRef(d, n) => InflateBackRef(d, n, rest, out);
  }

  lemma InflateLiteral(b: byte, rest: seq<byte>, out: seq<byte>)
    ensures Inflate(TokenBytes(Literal(b)) + rest, out) == Inflate(rest, out + [b])
  {
    LiteralBytes(b, rest);
  }

  /** The bytes of a literal, read back from the front of a stream. */
  lemma LiteralBytes(b: byte, rest: seq<byte>)
    ensures var s := TokenBytes(Literal(b)) + rest;
      && (b == ESCAPE ==> |s| >= 2 && s[0] == ESCAPE && s[1] == ESCAPE && s[2..] == rest)
      && (b != ESCAPE ==> |s| >= 1 && s[0] == b && s[1..] == rest)
  {
    DropPrefix(TokenBytes(Literal(b)), rest);
  }

  lemma InflateBackRef(d: nat, n: byte, rest: seq<byte>, out: seq<byte>)
    requires 1 <= d <= |out| && d < 0x1_0000 && d % 256 != ESCAPE && n >= 1
    ensures Inflate(TokenBytes(BackRef(d, n)) + rest, out) == Inflate(rest, out + CopyRun(out, d, n))
  {
    var s := TokenBytes(BackRef(d, n)) + rest;
    BackRefBytes(d, n, rest);
    InflateCopy(s, out, d, n, rest);
  }

  /** The four bytes of a back-reference, read back from the front of a stream. */
  lemma BackRefBytes(d: nat, n: byte, rest: seq<byte>)
    requires d < 0x1_0000 && d % 256 != ESCAPE
    ensures var s := TokenBytes(BackRef(d, n)) + rest;
      && |s| >= 4 && s[0] == ESCAPE && s[1] != ESCAPE && s[4..] == rest
      && d == (s[1] as int) + 256 * (s[2] as int) && n == s[3]
  {
    DropPrefix(TokenBytes(BackRef(d, n)), rest);
  }

  /** The decoder's step on a back-reference it accepts. */
  lemma InflateCopy(s: seq<byte>, out: seq<byte>, d: nat, n: byte, rest: seq<byte>)
    requires |s| >= 4 && s[0] == ESCAPE && s[1] != ESCAPE && s[4..] == rest
    requires d == (s[1] as int) + 256 * (s[2] as int) && n == s[3]
    requires 1 <= d <= |out| && n >= 1
    ensures Inflate(s, out) == Inflate(rest, out + CopyRun(out, d, n))
  {
  }

  /** A token that stands for the bytes at `i` expands, after the bytes
      before `i`, to those bytes. */
  lemma ExpandToken(data: seq<byte>, i: nat, t: Token)
    requires i < |data|
    requires t.Literal? ==> t.b == data[i]
    requires t.BackRef? ==>
      1 <= t.distance <= i && i + t.length <= |data| && data[i..i + t.length] == CopyRun(data[..i], t.distance, t.length)
    ensures i + Advance(t) <= |data| && data[..i] + Expand(t, data[..i]) == data[..i + Advance(t)]
  {
    PrefixAppend(data, i, i + Advance(t));
    if t.Literal? {
      assert data[i..i + 1] == [data[i]];
    }
  }

  /** The token chosen at `i` expands, after the bytes before `i`, to the
      bytes it stands for. */
  lemma ExpandChosen(data: seq<byte>, i: nat)
    requires i < |data|
    ensures Fits(data, i, LongestMatch(data, i))
    ensures var t := Choose(data, i, LongestMatch(data, i));
      i + Advance(t) <= |data| && data[..i] + Expand(t, data[..i]) == data[..i + Advance(t)]
  {
    ChooseDiscipline(data, i);
    ExpandToken(data, i, Choose(data, i, LongestMatch(data, i)));
  }

  /** Decoding the token stream of `data[i..]` after the output `data[..i]`
      reaches the output `data` and goes on with whatever follows the stream. */
  lemma {:induction false} InflateDeflateFromThen(data: seq<byte>, i: nat, tail: seq<byte>)
    requires i <= |data|
    ensures Inflate(DeflateFrom(data, Matches(data), i) + tail, data[..i]) == Inflate(tail, data)
    decreases |data| - i
  {
    var ms := Matches(data);
    if i == |data| {
      assert data[..i] == data;
      assert DeflateFrom(data, ms, i) + tail == tail;
    } else {
      assert ms[i] == LongestMatch(data, i);
      var t := Choose(data, i, ms[i]);
      var j := i + Advance(t);
      var prefix, rest := data[..i], DeflateFrom(data, ms, j) + tail;
      DeflateFromStep(data, ms, i, t, j);
      AppendAssoc(TokenBytes(t), DeflateFrom(data, ms, j), tail);
      ChooseDiscipline(data, i);
      InflateToken(t, rest, prefix);
      ExpandChosen(data, i);
      InflateDeflateFromThen(data, j, tail);
      assert Inflate(DeflateFrom(data, ms, i) + tail, prefix) == Inflate(TokenBytes(t) + rest, prefix);
      assert Inflate(rest, prefix + Expand(t, prefix)) == Inflate(rest, data[..j]);
    }
  }

  /** Decoding the token stream of `data[i..]` after the output `data[..i]`
      reproduces `data`. */
  lemma InflateDeflateFrom(data: seq<byte>, i: nat)
    requires i <= |data|
    ensures Inflate(DeflateFrom(data, Matches(data), i), data[..i]) == Ok(data)
  {
    InflateDeflateFromThen(data, i, []);
    assert DeflateFrom(data, Matches(data), i) + [] == DeflateFrom(data, Matches(data), i);
  }

  /** What the `Custom` arm of `compress_data` returns. It never fails, is at
      least six bytes long, starts with the zlib header and ends with the
      Adler-32 of the uncompressed input. */
  function Compress(data: seq<byte>): (c: seq<byte>)
    ensures |c| >= 6 && c[..2] == HEADER
    ensures FromBE32(c[|c| - 4..]) == Adler32.Checksum(data)
  {
    var c := HEADER + Deflate(data) + BE32(Adler32.Checksum(data));
    assert c[|c| - 4..] == BE32(Adler32.Checksum(data));
    FromBE32OfBE32(Adler32.Checksum(data));
    c
  }

  /** The compressed stream is at most twice as long as its input, plus the
      six bytes of header and trailer: a token never takes more than two
      bytes per byte it stands for. */
  lemma CompressLength(data: seq<byte>)
    ensures |Compress(data)| <= 2 * |data| + 6
  {
    DeflateFromLength(data, Matches(data), 0);
  }

  /** What `decompress_data` returns. Whatever it accepts has the header and
      a trailer equal to the Adler-32 of the bytes it returns. */
  function Decompress(c: seq<byte>): (r: Result<seq<byte>>)
    ensures r.Ok? ==> |c| >= 6 && c[..2] == HEADER && Adler32.Checksum(r.value) == FromBE32(c[|c| - 4..])
  {
    if |c| < 6 then Err(TooShort)
    else if c[0] != 0x78 || c[1] != 0x9C then Err(InvalidHeader)
    else
      match Inflate(c[2..|c| - 4], [])
      case Err(e) => Err(e)
      case Ok(out) =>
        if Adler32.Checksum(out) != FromBE32(c[|c| - 4..]) then Err(ChecksumMismatch) else Ok(out)
  }

  /** Round trip: every byte sequence, the empty one and those holding 0xFF
      included, decompresses to itself. */
  lemma RoundTrip(data: seq<byte>)
    ensures Decompress(Compress(data)) == Ok(data)
  {
    var c := Compress(data);
    assert c[2..|c| - 4] == Deflate(data);
    InflateDeflateFrom(data, 0);
    assert data[..0] == [];
  }

  /** Replacing the trailer of a compressed stream by any other four bytes
      makes decompression fail with a checksum mismatch. */
  lemma TamperedTrailer(data: seq<byte>, trailer: seq<byte>)
    requires |trailer| == 4 && trailer != BE32(Adler32.Checksum(data))
    ensures var c := Compress(data); Decompress(c[..|c| - 4] + trailer) == Err(ChecksumMismatch)
  {
    var c := Compress(data);
    var t := c[..|c| - 4] + trailer;
    assert t[2..|t| - 4] == Deflate(data);
    assert t[|t| - 4..] == trailer;
    InflateDeflateFrom(data, 0);
    assert data[..0] == [];
    BE32OfFromBE32(trailer);
  }

  /** Fewer than six bytes, or a first two bytes other than the zlib header,
      are refused before any token is read. */
  lemma MalformedFrame(c: seq<byte>)
    ensures |c| < 6 ==> Decompress(c) == Err(TooShort)
    ensures |c| >= 6 && c[..2] != HEADER ==> Decompress(c) == Err(InvalidHeader)
  {
    if |c| >= 6 && c[..2] != HEADER {
      assert c[..2] == [c[0], c[1]];
    }
  }

  /** A frame whose token stream fails to decode fails with the same error,
      whatever its trailer. */
  lemma FrameError(body: seq<byte>, trailer: seq<byte>)
    requires |trailer| == 4 && Inflate(body, []).Err?
    ensures Decompress(HEADER + body + trailer) == Err(Inflate(body, []).error)
  {
    var c := HEADER + body + trailer;
    assert c[2..|c| - 4] == body;
  }

  /** The token stream of `data` with bytes appended decodes as `data`
      followed by the decoding of those bytes. */
  lemma DeflateThen(data: seq<byte>, tail: seq<byte>)
    ensures Inflate(Deflate(data) + tail, []) == Inflate(tail, data)
  {
    InflateDeflateFromThen(data, 0, tail);
    assert data[..0] == [];
  }

  /** A stream that ends in a lone escape byte is refused as ending early. */
  lemma TruncatedEscape(data: seq<byte>, trailer: seq<byte>)
    requires |trailer| == 4
    ensures Decompress(HEADER + Deflate(data) + [ESCAPE] + trailer) == Err(UnexpectedEnd)
  {
    var body := Deflate(data) + [ESCAPE];
    DeflateThen(data, [ESCAPE]);
    assert Inflate(body, []) == Err(UnexpectedEnd);
    FrameError(body, trailer);
    assert HEADER + Deflate(data) + [ESCAPE] + trailer == HEADER + body + trailer;
  }

  /** A stream that ends one or two bytes into a back-reference is refused
      as an incomplete back-reference. */
  lemma TruncatedBackReference(data: seq<byte>, partial: seq<byte>, trailer: seq<byte>)
    requires 1 <= |partial| <= 2 && partial[0] != ESCAPE && |trailer| == 4
    ensures Decompress(HEADER + Deflate(data) + [ESCAPE] + partial + trailer) == Err(IncompleteBackReference)
  {
    var tail := [ESCAPE] + partial;
    var body := Deflate(data) + tail;
    DeflateThen(data, tail);
    assert Inflate(tail, data) == Err(IncompleteBackReference);
    FrameError(body, trailer);
    assert HEADER + Deflate(data) + [ESCAPE] + partial + trailer == HEADER + body + trailer;
  }

  /** A back-reference after the stream of `data` with distance 0, a distance
      reaching before the start of the output, or length 0 is refused, whatever
      follows it. */
  lemma InvalidBackReferenceAfter(data: seq<byte>, lo: byte, hi: byte, n: byte, rest: seq<byte>, trailer: seq<byte>)
    requires lo != ESCAPE && |trailer| == 4
    requires var d := (lo as int) + 256 * (hi as int); d == 0 || d > |data| || n == 0
    ensures Decompress(HEADER + Deflate(data) + [ESCAPE, lo, hi, n] + rest + trailer) == Err(InvalidBackReference)
  {
    var tail := [ESCAPE, lo, hi, n] + rest;
    var body := Deflate(data) + tail;
    DeflateThen(data, tail);
    assert tail[0] == ESCAPE && tail[1] == lo && tail[2] == hi && tail[3] == n;
    assert Inflate(tail, data) == Err(InvalidBackReference);
    FrameError(body, trailer);
    assert HEADER + Deflate(data) + [ESCAPE, lo, hi, n] + rest + trailer == HEADER + body + trailer;
  }

  /** Emitting the token chosen at `start` keeps the coder's output plus
      the stream still to come equal to the whole token stream. */
  lemma EmitChosen(data: seq<byte>, ms: seq<(nat, nat)>, before: seq<byte>, start: nat, result: seq<byte>, i: nat)
    requires MatchesFit(data, ms) && start < |data|
    requires before + DeflateFrom(data, ms, start) == DeflateFrom(data, ms, 0)
    requires var t := Choose(data, start, ms[start]); result == before + TokenBytes(t) && i == start + Advance(t)
    ensures i <= |data| && result + DeflateFrom(data, ms, i) == DeflateFrom(data, ms, 0)
  {
    var t := Choose(data, start, ms[start]);
    DeflateFromStep(data, ms, start, t, i);
    AppendAssoc(before, TokenBytes(t), DeflateFrom(data, ms, i));
  }

  /** `PngEncoder::simple_deflate`. */
  method SimpleDeflate(data: seq<byte>) returns (result: seq<byte>)
    ensures result == Deflate(data)
  {
    result := [];
    var i := 0;
    ghost var ms := Matches(data);
    while i < |data|
      invariant i <= |data|
      invariant result + DeflateFrom(data, ms, i) == DeflateFrom(data, ms, 0)
    {
      var matchDistance, matchLength := FindLongestMatch(data, i);
      assert ms[i] == (matchDistance, matchLength);
      ghost var t := Choose(data, i, ms[i]);
      ghost var before, start := result, i;
      if matchLength >= MIN_MATCH && matchDistance > 0 && matchDistance <= 65535 {
        var distanceLow := matchDistance % 256;
        var distanceHigh := (matchDistance / 256) % 256;
        if distanceLow != ESCAPE {
          assert t == BackRef(matchDistance, Min(matchLength, 255));
          result := result + [ESCAPE, distanceLow, distanceHigh, Min(matchLength, 255)];
          i := i + Min(matchLength, 255);
        } else {
          assert t == Literal(data[i]);
          if data[i] == ESCAPE {
            result := result + [ESCAPE, ESCAPE];
          } else {
            result := result + [data[i]];
          }
          i := i + 1;
        }
      } else {
        assert t == Literal(data[i]);
        if data[i] == ESCAPE {
          result := result + [ESCAPE, ESCAPE];
        } else {
          result := result + [data[i]];
        }
        i := i + 1;
      }
      EmitChosen(data, ms, before, start, result, i);
    }
  }

  /** `PngEncoder::simple_inflate`: the copy of a back-reference reads from the
      output it is growing, and only bytes that were there before it began. */
  method SimpleInflate(data: seq<byte>) returns (r: Result<seq<byte>>)
    ensures r == Inflate(data, [])
  {
    var result: seq<byte> := [];
    var i := 0;
    while i < |data|
      invariant i <= |data|
      invariant Inflate(data[i..], result) == Inflate(data, [])
    {
      if data[i] == ESCAPE {
        if i + 1 >= |data| {
          return Err(UnexpectedEnd);
        }
        if data[i + 1] == ESCAPE {
          assert data[i..][2..] == data[i + 2..];
          result := result + [ESCAPE];
          i := i + 2;
        } else {
          if i + 3 >= |data| {
            return Err(IncompleteBackReference);
          }
          var distance := (data[i + 1] as int) + (data[i + 2] as int) * 256;
          var length := data[i + 3];
          if distance == 0 || distance > |result| || length == 0 {
            return Err(InvalidBackReference);
          }
          var startPos := |result| - distance;
          ghost var before := result;
          for j := 0 to length
            invariant result == before + CopyRun(before, distance, j)
          {
            WrapIsMod(j, distance);
            var srcIdx := startPos + j % distance;
            var b := result[srcIdx];
            assert CopyRun(before, distance, j + 1) == CopyRun(before, distance, j) + [b];
            result := result + [b];
          }
          assert data[i..][4..] == data[i + 4..];
          i := i + 4;
        }
      } else {
        assert data[i..][1..] == data[i + 1..];
        result := result + [data[i]];
        i := i + 1;
      }
    }
    assert data[i..] == [];
    r := Ok(result);
  }

  /** The `Custom` arm of `PngEncoder::compress_data`. */
  method CompressData(data: seq<byte>) returns (compressed: seq<byte>)
    ensures compressed == Compress(data)
  {
    compressed := [];
    compressed := compressed + [0x78];
    compressed := compressed + [0x9C];
    var deflateData := SimpleDeflate(data);
    compressed := compressed + deflateData;
    var checksum := Adler32.ComputeAdler32(data);
    compressed := compressed + BE32(checksum);
  }

  /** `PngEncoder::decompress_data`. */
  method DecompressData(compressed: seq<byte>) returns (r: Result<seq<byte>>)
    ensures r == Decompress(compressed)
  {
    if |compressed| < 6 {
      return Err(TooShort);
    }
    if compressed[0] != 0x78 || compressed[1] != 0x9C {
      return Err(InvalidHeader);
    }
    var deflateData := compressed[2..|compressed| - 4];
    var decompressed := SimpleInflate(deflateData);
    if decompressed.Err? {
      return Err(decompressed.error);
    }
    var n := |compressed|;
    var expectedChecksum := FromBE32([compressed[n - 4], compressed[n - 3], compressed[n - 2], compressed[n - 1]]);
    assert [compressed[n - 4], compressed[n - 3], compressed[n - 2], compressed[n - 1]] == compressed[n - 4..];
    var actualChecksum := Adler32.ComputeAdler32(decompressed.value);
    if actualChecksum != expectedChecksum {
      return Err(ChecksumMismatch);
    }
    r := Ok(decompressed.value);
  }

  /** `PngEncoder::test_compression`: compressing and decompressing gives the
      input back, for every input. */
  method TestCompression(data: seq<byte>) returns (ok: bool)
    ensures ok
  {
    var compressed := CompressData(data);
    var decompressed := DecompressData(compressed);
    RoundTrip(data);
    ok := decompressed.Ok? && decompressed.value == data;
  }
}
