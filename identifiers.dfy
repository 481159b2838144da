/**
  * External identifiers (`_id_dil`): `prefix_provider_XXXXXXXX`, where the suffix is the
  * first eight characters of the URL-safe Base64 text (RFC 4648, section 5) of a random
  * UUID, with every punctuation character replaced by a random ASCII letter; and the
  * generate-and-recheck loop that keeps only a candidate no row of the table carries.
  *
  * The randomness (`uuid.uuid4()` and `random.choice`) is an input: a `Draw`.
  */
module Identifiers {
  import opened Wrappers
  import opened Text

  newtype byte = x: int | 0 <= x < 256

  /** `uuid.uuid4().bytes` is always sixteen bytes. */
  type UuidBytes = s: seq<byte> | |s| == 16 witness [0, 0, 0, 0, 0, 0, 0, 0, 0, 0, 0, 0, 0, 0, 0, 0]

  /** A member of `string.ascii_letters`, what `random.choice(string.ascii_letters)` returns. */
  type Letter = c: char | IsAsciiLetter(c) witness 'a'

  /** One round of randomness: the UUID bytes, and the letter that replaces a punctuation
      character found at each position. */
  datatype Draw = Draw(uuid: UuidBytes, pick: nat -> Letter)

  /** Python's `string.punctuation`. */
  const Punctuation: string := "!\"#$%&'()*+,-./:;<=>?@[\\]^_`{|}~"

  predicate IsBase64UrlChar(c: char) { IsAsciiAlnum(c) || c == '-' || c == '_' }

  /** The 64-character alphabet of RFC 4648, section 5 ("base64url"). */
  function Base64UrlChar(v: nat): (c: char)
    requires v < 64
    ensures IsBase64UrlChar(c)
  {
    if v < 26 then ('A' as int + v) as char
    else if v < 52 then ('a' as int + v - 26) as char
    else if v < 62 then ('0' as int + v - 52) as char
    else if v == 62 then '-'
    else '_'
  }

  /** The four characters of one full three-byte group: 6 + 6 + 6 + 6 bits. */
  function Quad(x: byte, y: byte, z: byte): (r: string)
    ensures |r| == 4 && forall i :: 0 <= i < 4 ==> IsBase64UrlChar(r[i])
  {
    [Base64UrlChar(x as nat / 4), Base64UrlChar((x as nat % 4) * 16 + y as nat / 16),
     Base64UrlChar((y as nat % 16) * 4 + z as nat / 64), Base64UrlChar(z as nat % 64)]
  }

  /** `base64.urlsafe_b64encode`: four characters per three bytes, '=' padding at the end. */
  function Base64UrlEncode(b: seq<byte>): (r: string)
    ensures |r| == 4 * ((|b| + 2) / 3)
    ensures forall i :: 0 <= i < |r| ==> IsBase64UrlChar(r[i]) || r[i] == '='
    decreases |b|
  {
    if |b| == 0 then []
    else if |b| == 1 then
      [Base64UrlChar(b[0] as nat / 4), Base64UrlChar((b[0] as nat % 4) * 16), '=', '=']
    else if |b| == 2 then
      [Base64UrlChar(b[0] as nat / 4), Base64UrlChar((b[0] as nat % 4) * 16 + b[1] as nat / 16),
       Base64UrlChar((b[1] as nat % 16) * 4), '=']
    else
      Quad(b[0], b[1], b[2]) + Base64UrlEncode(b[3..])
  }

  /** A full three-byte group gives four padding-free characters, then the rest. */
  lemma Base64UrlGroup(b: seq<byte>)
    requires |b| >= 3
    ensures forall i :: 0 <= i < 4 ==> IsBase64UrlChar(Base64UrlEncode(b)[i])
    ensures Base64UrlEncode(b)[4..] == Base64UrlEncode(b[3..])
  {
  }

  /** Two full three-byte groups give eight padding-free characters. */
  lemma Base64UrlHead(b: seq<byte>)
    requires |b| >= 6
    ensures forall i :: 0 <= i < 8 ==> IsBase64UrlChar(Base64UrlEncode(b)[i])
  {
    var r := Base64UrlEncode(b);
    Base64UrlGroup(b);
    Base64UrlGroup(b[3..]);
    forall i | 4 <= i < 8 ensures IsBase64UrlChar(r[i]) {
      assert r[i] == Base64UrlEncode(b[3..])[i - 4];
    }
  }

  /** `s.rstrip(c)`. */
  function RStripChar(s: string, c: char): (r: string)
    ensures |r| <= |s| && r == s[..|r|]
    ensures forall i :: |r| <= i < |s| ==> s[i] == c
  {
    if s == [] || s[|s| - 1] != c then s else RStripChar(s[..|s| - 1], c)
  }

  lemma RStripKeepsHead(s: string, c: char, k: nat)
    requires k < |s| && s[k] != c
    ensures |RStripChar(s, c)| > k && RStripChar(s, c)[..k + 1] == s[..k + 1]
  {
  }

  /** `s[:n]`: Python slicing never fails, it stops at the end of the string. */
  function Take(s: string, n: nat): (r: string)
    ensures |r| == if |s| <= n then |s| else n
    ensures r == s[..|r|]
  {
    if |s| <= n then s else s[..n]
  }

  /** Each punctuation character is replaced by the letter drawn for its position. */
  function ReplacePunctuation(s: string, pick: nat -> Letter): (r: string)
    ensures |r| == |s|
    ensures forall i :: 0 <= i < |s| ==> r[i] == if s[i] in Punctuation then pick(i) as char else s[i]
  {
    seq(|s|, i requires 0 <= i < |s| => if s[i] in Punctuation then pick(i) as char else s[i])
  }

  /** `prefix_provider_chars` when the provider is non-empty, `prefix_chars` otherwise. */
  function Assemble(prefix: string, provider: string, chars: string): (id: string)
    ensures id == prefix + "_" + (if provider != "" then provider + "_" else "") + chars
  {
    if provider != "" then prefix + "_" + provider + "_" + chars else prefix + "_" + chars
  }

  /** The eight random characters: the padding-stripped base64url text cut to eight
      characters, punctuation replaced. */
  function RandomSuffix(d: Draw): string
  {
    ReplacePunctuation(Take(RStripChar(Base64UrlEncode(d.uuid), '='), 8), d.pick)
  }

  /** `generate_random_uuid(prefix, provider)` of api/models/models.py. */
  function GenerateRandomUuid(prefix: string, provider: string, d: Draw): string
  {
    Assemble(prefix, provider, RandomSuffix(d))
  }

  /** The suffix is eight letters or digits: the first eight base64url characters of the
      UUID, each '-' or '_' replaced by the drawn letter. */
  lemma RandomSuffixShape(d: Draw)
    ensures var chars := RandomSuffix(d);
      && |chars| == 8
      && AllAlnum(chars)
      && forall i :: 0 <= i < 8 ==>
           chars[i] == (var c := Base64UrlEncode(d.uuid)[i]; if c in Punctuation then d.pick(i) as char else c)
  {
    var full := Base64UrlEncode(d.uuid);
    Base64UrlHead(d.uuid);
    RStripKeepsHead(full, '=', 7);
    var head := full[..8];
    assert Take(RStripChar(full, '='), 8) == head;
    ReplacedHeadIsAlnum(head, d.pick, RandomSuffix(d));
  }

  /** Replacing the punctuation of base64url characters leaves letters and digits only. */
  lemma ReplacedHeadIsAlnum(head: string, pick: nat -> Letter, chars: string)
    requires forall i :: 0 <= i < |head| ==> IsBase64UrlChar(head[i])
    requires chars == ReplacePunctuation(head, pick)
    ensures AllAlnum(chars)
  {
    assert '-' in Punctuation && '_' in Punctuation by {
      assert Punctuation[12] == '-' && Punctuation[26] == '_';
    }
    forall i | 0 <= i < |chars| ensures IsAsciiAlnum(chars[i]) {
      assert IsBase64UrlChar(head[i]);
    }
  }

  /** The identifier is the prefix, the provider segment exactly when the provider is not
      empty, and the eight-character random suffix. */
  lemma GenerateRandomUuidShape(prefix: string, provider: string, d: Draw)
    ensures var id := GenerateRandomUuid(prefix, provider, d);
      && |id| >= 8
      && id[..|id| - 8] == prefix + "_" + (if provider != "" then provider + "_" else "")
      && id[|id| - 8..] == RandomSuffix(d)
      && AllAlnum(id[|id| - 8..])
  {
    RandomSuffixShape(d);
  }

  /** The candidate generator `generate_unique_id` uses: provider "dil". */
  function DilCandidate(prefix: string): Draw -> string
  {
    d => GenerateRandomUuid(prefix, "dil", d)
  }

  /** The candidate the generate-and-recheck loop settles on: the first draw whose candidate
      is not taken, or `None` when every draw collides. */
  function FirstUnused(gen: Draw -> string, taken: set<string>, draws: seq<Draw>): Option<string>
  {
    if draws == [] then None
    else if gen(draws[0]) !in taken then Some(gen(draws[0]))
    else FirstUnused(gen, taken, draws[1..])
  }

  /** What the loop settles on is a generated candidate that no row carries, and it is
      `None` only when every candidate is taken. */
  lemma {:induction false} FirstUnusedIsFree(gen: Draw -> string, taken: set<string>, draws: seq<Draw>)
    ensures var id := FirstUnused(gen, taken, draws);
      && (id.Some? ==> id.value !in taken && exists k :: 0 <= k < |draws| && id.value == gen(draws[k]))
      && (id.None? <==> forall k :: 0 <= k < |draws| ==> gen(draws[k]) in taken)
  {
    if draws != [] && gen(draws[0]) in taken {
      FirstUnusedIsFree(gen, taken, draws[1..]);
      var id := FirstUnused(gen, taken, draws);
      if id.Some? {
        var k :| 0 <= k < |draws[1..]| && id.value == gen(draws[1..][k]);
        assert id.value == gen(draws[k + 1]);
      }
      if id.None? {
        forall k | 0 <= k < |draws| ensures gen(draws[k]) in taken {
          if k > 0 {
            assert draws[k] == draws[1..][k - 1];
          }
        }
      } else {
        var k :| 0 <= k < |draws[1..]| && gen(draws[1..][k]) !in taken;
        assert gen(draws[k + 1]) !in taken;
      }
    } else if draws != [] {
      assert gen(draws[0]) !in taken;
    }
  }

  /**
    * `generate_unique_id`: draw candidates until one is absent from the table's identifiers.
    * The source loops for as long as it takes; here the draws are a finite sequence, and
    * `None` means every one of them collided.
    */
  method GenerateUniqueId(gen: Draw -> string, taken: set<string>, draws: seq<Draw>)
    returns (id: Option<string>, attempts: nat)
    ensures id == FirstUnused(gen, taken, draws)
    ensures attempts <= |draws|
    ensures forall j :: 0 <= j < attempts ==> gen(draws[j]) in taken
    ensures id.Some? ==> attempts < |draws| && id.value == gen(draws[attempts]) && id.value !in taken
    ensures id.None? ==> attempts == |draws|
  {
    attempts := 0;
    while attempts < |draws|
      invariant attempts <= |draws|
      invariant forall j :: 0 <= j < attempts ==> gen(draws[j]) in taken
      invariant FirstUnused(gen, taken, draws[attempts..]) == FirstUnused(gen, taken, draws)
    {
      var candidate := gen(draws[attempts]);
      if candidate !in taken {
        return Some(candidate), attempts;
      }
      assert draws[attempts..][1..] == draws[attempts + 1..];
      attempts := attempts + 1;
    }
    id := None;
  }
}
