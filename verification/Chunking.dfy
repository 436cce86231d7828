/** When the way bytes arrive can matter: length prefixes longer than an encoder writes. */
module Chunking {
  import opened Text
  import opened Syslog
  import opened Frame
  import opened Session

  /** An octet-count frame as any sender may write it: the length with leading zeros or a `+`,
      and a body that the parser trims. */
  datatype RawFrame = RawFrame(prefix: Bytes, body: Bytes)

  function Raw(f: RawFrame): Bytes {
    f.prefix + " " + f.body
  }

  /** A complete frame within the limit whose body is UTF-8 that parses to `m`. */
  predicate Carries(maxSize: nat, utf8: Bytes -> bool, f: RawFrame, m: SyslogMessage) {
    StartsWithFrame(OctetCount(maxSize), Raw(f), f.prefix, f.body, []) && utf8(f.body) && Parse(f.body) == Ok(m)
  }

  function Raws(fs: seq<RawFrame>): seq<Bytes> {
    seq(|fs|, i requires 0 <= i < |fs| => Raw(fs[i]))
  }

  ghost predicate AllCarry(maxSize: nat, utf8: Bytes -> bool, fs: seq<RawFrame>, ms: seq<SyslogMessage>) {
    |fs| == |ms| && forall k :: 0 <= k < |fs| ==> Carries(maxSize, utf8, fs[k], ms[k])
  }

  lemma RawDecoded(maxSize: nat, utf8: Bytes -> bool, f: RawFrame, m: SyslogMessage, rest: Bytes)
    requires Carries(maxSize, utf8, f, m)
    ensures Decode(OctetCount(maxSize), utf8, Raw(f) + rest) == (Ok(Some(m)), rest)
  {
    hide Decode, Parse, ParseUnsigned;
    WholeOctetFrame(maxSize, utf8, f.prefix, f.body, rest);
  }

  lemma ShortPrefixDelivers(maxSize: nat, utf8: Bytes -> bool, f: RawFrame, m: SyslogMessage)
    requires Carries(maxSize, utf8, f, m) && |f.prefix| <= MAX_DIGITS
    ensures Delivers(OctetCount(maxSize), utf8, Raw(f), m)
  {
    hide Decode, Parse, ParseUnsigned;
    var codec := OctetCount(maxSize);
    forall rest: Bytes ensures Decode(codec, utf8, Raw(f) + rest) == (Ok(Some(m)), rest) {
      RawDecoded(maxSize, utf8, f, m, rest);
    }
    forall p: Bytes | p < Raw(f) ensures Decode(codec, utf8, p) == (Ok(None), p) {
      PartialOctetFrame(maxSize, utf8, f.prefix, f.body, p);
    }
  }

  lemma ShortPrefixesHandled(
    maxSize: nat, utf8: Bytes -> bool, fs: seq<RawFrame>, ms: seq<SyslogMessage>, input: seq<Read>)
    requires AllCarry(maxSize, utf8, fs, ms) && forall k :: 0 <= k < |fs| ==> |fs[k].prefix| <= MAX_DIGITS
    requires AreChunks(input) && Joined(input) == Concat(Raws(fs))
    ensures Run(OctetCount(maxSize), utf8, [], input) == (AllHandled(ms), [])
  {
    hide Carries, Delivers, Run, AllHandled, Joined, Concat, Raw;
    var codec := OctetCount(maxSize);
    forall k | 0 <= k < |ms| ensures Delivers(codec, utf8, Raws(fs)[k], ms[k]) {
      ShortPrefixDelivers(maxSize, utf8, fs[k], ms[k]);
    }
    EmptyUndecided(codec, utf8);
    assert [] + Joined(input) == Concat(Raws(fs)) + [];
    FramesFrom(codec, utf8, [], input, Raws(fs), ms, []);
    assert AllHandled(ms) + [] == AllHandled(ms);
  }

  // ── A prefix that is too long ──────────────────────────────────────────────

  /** Whole frames in the buffer are handled one after another, whatever follows them. */
  lemma {:induction false} WholeFramesHandled(
    maxSize: nat, utf8: Bytes -> bool, fs: seq<RawFrame>, ms: seq<SyslogMessage>, rest: Bytes, input: seq<Read>)
    requires AllCarry(maxSize, utf8, fs, ms)
    ensures Run(OctetCount(maxSize), utf8, Concat(Raws(fs)) + rest, input)
         == Then(AllHandled(ms), Run(OctetCount(maxSize), utf8, rest, input))
    decreases |fs|
  {
    hide Carries, Decode, Run, Raw;
    var codec := OctetCount(maxSize);
    if fs == [] {
      assert Concat(Raws(fs)) + rest == rest;
      ThenNothing(Run(codec, utf8, rest, input));
    } else {
      var more := Concat(Raws(fs[1..])) + rest;
      assert Raws(fs)[1..] == Raws(fs[1..]);
      ConcatFront(Raws(fs), rest);
      RawDecoded(maxSize, utf8, fs[0], ms[0], more);
      HandleOne(codec, utf8, Raw(fs[0]), ms[0], more, input);
      WholeFramesHandled(maxSize, utf8, fs[1..], ms[1..], rest, input);
      ThenThen([Handled(ms[0])], AllHandled(ms[1..]), Run(codec, utf8, rest, input));
      assert [Handled(ms[0])] + AllHandled(ms[1..]) == AllHandled(ms);
    }
  }

  lemma {:induction false} ConcatSplit(frames: seq<Bytes>, k: nat)
    requires k < |frames|
    ensures Concat(frames) == Concat(frames[..k]) + (frames[k] + Concat(frames[k + 1..]))
  {
    if k == 0 {
      assert frames[..0] == [];
    } else {
      ConcatSplit(frames[1..], k - 1);
      assert frames[1..][..k - 1] == frames[..k][1..] && frames[1..][k..] == frames[k + 1..];
      Assoc(frames[0], Concat(frames[..k][1..]), frames[k] + Concat(frames[k + 1..]));
    }
  }

  /** The stream cut once, right after the length prefix of frame `k`. */
  ghost function CutAfterPrefix(fs: seq<RawFrame>, k: nat): seq<Read>
    requires k < |fs|
  {
    [Data(Concat(Raws(fs[..k])) + fs[k].prefix), Data(" " + fs[k].body + Concat(Raws(fs[k + 1..])))]
  }

  lemma CutIsStream(fs: seq<RawFrame>, k: nat)
    requires k < |fs| && fs[k].prefix != []
    ensures AreChunks(CutAfterPrefix(fs, k)) && Joined(CutAfterPrefix(fs, k)) == Concat(Raws(fs))
  {
    hide Concat;
    var input, done, more := CutAfterPrefix(fs, k), Concat(Raws(fs[..k])), Concat(Raws(fs[k + 1..]));
    ConcatSplit(Raws(fs), k);
    assert Raws(fs)[..k] == Raws(fs[..k]) && Raws(fs)[k + 1..] == Raws(fs[k + 1..]);
    assert Joined(input[1..]) == " " + fs[k].body + more;
    assert done + fs[k].prefix + (" " + fs[k].body + more) == done + (fs[k].prefix + " " + fs[k].body + more);
  }

  /** A prefix of more than twenty bytes fails when it arrives before its space, wherever in the
      stream it is. */
  lemma LongPrefixFails(maxSize: nat, utf8: Bytes -> bool, fs: seq<RawFrame>, ms: seq<SyslogMessage>, k: nat)
    requires AllCarry(maxSize, utf8, fs, ms) && k < |fs| && |fs[k].prefix| > MAX_DIGITS
    ensures Run(OctetCount(maxSize), utf8, [], CutAfterPrefix(fs, k)) != (AllHandled(ms), [])
  {
    hide Run, Concat, Parse, ParseUnsigned, Joined;
    var codec, input, prefix := OctetCount(maxSize), CutAfterPrefix(fs, k), fs[k].prefix;
    CutIsStream(fs, k);
    EmptyUndecided(codec, utf8);
    ReadOne(codec, utf8, [], input);
    assert [] + input[0].bytes == Concat(Raws(fs[..k])) + prefix;
    WholeFramesHandled(maxSize, utf8, fs[..k], ms[..k], prefix, input[1..]);
    assert Carries(maxSize, utf8, fs[k], ms[k]);
    FirstEvent(codec, utf8, prefix, input[1..]);
    assert Run(codec, utf8, [], input).0[k].FrameFailure?;
  }

  /** Octet-count frames are handled, in order and completely, however their bytes arrive, if and
      only if every length prefix has at most twenty bytes. */
  lemma PrefixedFrameChunks(maxSize: nat, utf8: Bytes -> bool, fs: seq<RawFrame>, ms: seq<SyslogMessage>)
    requires AllCarry(maxSize, utf8, fs, ms)
    ensures (forall k :: 0 <= k < |fs| ==> |fs[k].prefix| <= 20)
       <==> forall input: seq<Read> :: AreChunks(input) && Joined(input) == Concat(Raws(fs))
              ==> Run(OctetCount(maxSize), utf8, [], input) == (AllHandled(ms), [])
  {
    hide Run, AllCarry, Joined, Concat, AllHandled, CutAfterPrefix;
    if forall k :: 0 <= k < |fs| ==> |fs[k].prefix| <= 20 {
      forall input: seq<Read> | AreChunks(input) && Joined(input) == Concat(Raws(fs))
        ensures Run(OctetCount(maxSize), utf8, [], input) == (AllHandled(ms), [])
      {
        ShortPrefixesHandled(maxSize, utf8, fs, ms, input);
      }
    } else {
      var k :| 0 <= k < |fs| && |fs[k].prefix| > 20;
      CutIsStream(fs, k);
      LongPrefixFails(maxSize, utf8, fs, ms, k);
    }
  }
}
