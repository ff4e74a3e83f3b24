/** What the camera and the worker say to each other. */
module Messages {
  import opened Options
  import opened Geometry

  datatype Point = Point(x: real, y: real)

  /** The `classes` key: absent, or a list that may be empty. */
  datatype ConfigMessage = ConfigMessage(
    runtime: string,
    device: string,
    modelPath: string,
    conf: Option<real>,
    classes: Option<seq<string>>,
    roi: Option<seq<Point>>,
    inclusive: Option<seq<Point>>,
    exclusive: Option<seq<Point>>,
    trackMaxAge: Option<int>,
    trackClassMatch: Option<string>)

  /** The JSON part of a message. */
  datatype Control =
    | Attach
    | Detach
    | Config(config: ConfigMessage)
    | FrameHeader(id: int, w: int, h: int, stride: int)
    | Unknown(kind: string)

  type Byte = b: int | 0 <= b < 256

  /** A control part and, after a frame header only, the raw pixels. */
  datatype Message = Message(control: Control, body: seq<Byte>)

  /** A detected object. */
  datatype Det = Det(xyxy: Box, score: real, cls: int)

  /** The answer to a frame: its id, its boxes, and one track id per box when there is a tracker. */
  datatype FrameReply = FrameReply(id: int, dets: seq<Det>, trackIds: seq<int>)

  // Text keeps everything but the exact value of a real number.

  predicate SamePoints(a: Option<seq<Point>>, b: Option<seq<Point>>) {
    a.Some? == b.Some? && (a.Some? ==> |a.value| == |b.value|)
  }

  predicate SameConfig(a: ConfigMessage, b: ConfigMessage) {
    && a.runtime == b.runtime && a.device == b.device && a.modelPath == b.modelPath
    && a.conf.Some? == b.conf.Some? && a.classes == b.classes
    && SamePoints(a.roi, b.roi) && SamePoints(a.inclusive, b.inclusive) && SamePoints(a.exclusive, b.exclusive)
    && a.trackMaxAge == b.trackMaxAge && a.trackClassMatch == b.trackClassMatch
  }

  /** Equal but for real numbers. */
  predicate SameControl(a: Control, b: Control) {
    if a.Config? && b.Config? then SameConfig(a.config, b.config) else a == b
  }

  /** Equal but for real numbers. */
  predicate SameReply(a: FrameReply, b: FrameReply) {
    && a.id == b.id && a.trackIds == b.trackIds && |a.dets| == |b.dets|
    && forall i | 0 <= i < |a.dets| :: a.dets[i].cls == b.dets[i].cls
  }
}
