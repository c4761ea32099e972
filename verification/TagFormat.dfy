/** What the ring reads out of a tag's own bytes (src/h264.rs). */
module TagFormat {
  import opened Wrappers

  // Video tag kinds, as FLV numbers them.
  const AUDIO: nat := 8
  const VIDEO: nat := 9
  const SCRIPT: nat := 18

  // A OneTrack layout is the only one with a track id per tag, at byte 6.
  function OneTrackId(payload: seq<byte>): byte
    requires |payload| >= 2
  {
    if payload[1] / 16 != 0 || |payload| < 7 then 0 else payload[6]
  }

  function VideoTrackId(payload: seq<byte>): byte {
    if |payload| < 2 || payload[0] < 0x80 || payload[0] % 16 != 6 then 0 else OneTrackId(payload)
  }

  function AudioTrackId(payload: seq<byte>): byte {
    if |payload| < 2 || payload[0] / 16 != 9 || payload[0] % 16 != 5 then 0 else OneTrackId(payload)
  }

  /** A keyframe of the primary track: the only kind that becomes a cut point. */
  predicate IsPrimaryVideoIdr(payload: seq<byte>) {
    if payload == [] then false
    else if payload[0] < 0x80 then payload[0] == 0x17
    else if payload[0] / 16 % 8 != 1 then false
    else if payload[0] % 16 != 6 then true
    else if |payload| < 2 then false
    else if payload[1] / 16 != 0 then true
    else if |payload| < 7 then false
    else payload[6] == 0
  }

  // ---------------------------------------------------------------- how tags are laid out

  /** A tag's first byte: the Ex bit and the frame type for video, the sound format for
      audio, over the packet type, or the codec of a legacy tag. */
  function Packed(high: nat, low: nat): byte
    requires high < 16 && low < 16
  {
    high * 16 + low
  }

  /** Video as legacy FLV and Enhanced RTMP lay it out. Of the multitrack layouts only
      `OneTrack` names its track; `layout` tells the others apart. */
  datatype Video =
    | Legacy(frameType: nat, codec: nat, rest: seq<byte>)
    | Single(frameType: nat, packetType: nat, rest: seq<byte>)
    | OneTrack(frameType: nat, nested: nat, fourCc: seq<byte>, track: byte, rest: seq<byte>)
    | Bundle(frameType: nat, layout: nat, nested: nat, rest: seq<byte>)

  const KEYFRAME: nat := 1
  const AVC: nat := 7
  const VIDEO_MULTITRACK: nat := 6
  const EX_AUDIO: nat := 9
  const AUDIO_MULTITRACK: nat := 5

  predicate Framed(v: Video) {
    && v.frameType < 8
    && match v
       case Legacy(_, codec, _) => codec < 16
       case Single(_, packetType, _) => packetType < 16 && packetType != VIDEO_MULTITRACK
       case OneTrack(_, nested, fourCc, _, _) => nested < 16 && |fourCc| == 4
       case Bundle(_, layout, nested, _) => 0 < layout < 16 && nested < 16
  }

  function VideoBytes(v: Video): seq<byte>
    requires Framed(v)
  {
    match v
    case Legacy(frameType, codec, rest) => [Packed(frameType, codec)] + rest
    case Single(frameType, packetType, rest) => [Packed(8 + frameType, packetType)] + rest
    case OneTrack(frameType, nested, fourCc, track, rest) =>
      [Packed(8 + frameType, VIDEO_MULTITRACK), Packed(0, nested)] + fourCc + [track] + rest
    case Bundle(frameType, layout, nested, rest) =>
      [Packed(8 + frameType, VIDEO_MULTITRACK), Packed(layout, nested)] + rest
  }

  /** A cut point is a keyframe of the primary track: any AVC keyframe, any keyframe with no
      track of its own, or with track 0's. And a track's headers are kept under its own id.
      A tag cut before its track id is neither. */
  lemma VideoReadsBack(v: Video)
    requires Framed(v)
    ensures IsPrimaryVideoIdr(VideoBytes(v)) <==>
      v.frameType == KEYFRAME && (v.Legacy? ==> v.codec == AVC) && (v.OneTrack? ==> v.track == 0)
    ensures VideoTrackId(VideoBytes(v)) == if v.OneTrack? then v.track else 0
    ensures v.OneTrack? ==> forall n | 0 <= n < 7 ::
      !IsPrimaryVideoIdr(VideoBytes(v)[..n]) && VideoTrackId(VideoBytes(v)[..n]) == 0
  {
    var b := VideoBytes(v);
    if v.OneTrack? {
      var head := [Packed(8 + v.frameType, VIDEO_MULTITRACK), Packed(0, v.nested)];
      assert b == head + v.fourCc + [v.track] + v.rest;
      assert b[0] == head[0] && b[1] == head[1] && b[6] == v.track;
    }
  }

  // Audio: anything but an Enhanced multitrack tag has no track of its own.
  datatype Audio =
    | Plain(soundFormat: nat, packetType: nat, rest: seq<byte>)
    | OneAudioTrack(nested: nat, fourCc: seq<byte>, track: byte, rest: seq<byte>)
    | AudioBundle(layout: nat, nested: nat, rest: seq<byte>)

  predicate AudioFramed(a: Audio) {
    match a
    case Plain(soundFormat, packetType, _) =>
      soundFormat < 16 && packetType < 16 && !(soundFormat == EX_AUDIO && packetType == AUDIO_MULTITRACK)
    case OneAudioTrack(nested, fourCc, _, _) => nested < 16 && |fourCc| == 4
    case AudioBundle(layout, nested, _) => 0 < layout < 16 && nested < 16
  }

  function AudioBytes(a: Audio): seq<byte>
    requires AudioFramed(a)
  {
    match a
    case Plain(soundFormat, packetType, rest) => [Packed(soundFormat, packetType)] + rest
    case OneAudioTrack(nested, fourCc, track, rest) =>
      [Packed(EX_AUDIO, AUDIO_MULTITRACK), Packed(0, nested)] + fourCc + [track] + rest
    case AudioBundle(layout, nested, rest) =>
      [Packed(EX_AUDIO, AUDIO_MULTITRACK), Packed(layout, nested)] + rest
  }

  lemma AudioReadsBack(a: Audio)
    requires AudioFramed(a)
    ensures AudioTrackId(AudioBytes(a)) == if a.OneAudioTrack? then a.track else 0
  {
    var b := AudioBytes(a);
    if a.OneAudioTrack? {
      var head := [Packed(EX_AUDIO, AUDIO_MULTITRACK), Packed(0, a.nested)];
      assert b == head + a.fourCc + [a.track] + a.rest;
      assert b[0] == head[0] && b[1] == head[1] && b[6] == a.track;
    }
  }
}
