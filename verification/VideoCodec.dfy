/** The capture engine and the client's decoder, as far as the streaming protocol depends on them.
    A frame is a row of blocks; a differential image carries the blocks that differ from the engine's reference. */
module VideoCodec {

  type Frame = seq<int>

  /** What a decoder must know to read a frame: the fields the transfer header announces. */
  datatype Settings = Settings(yTable: nat, mode420: nat, rc4: nat)

  datatype Format = Aspeed | Jpeg

  datatype Config = Config(format: Format, settings: Settings, visualLossless: nat)

  datatype Image = Full(frame: Frame) | Delta(size: nat, changes: map<nat, int>)

  function Diff(base: Frame, screen: Frame): Image {
    Delta(|screen|, map i: nat | 0 <= i < |screen| && (i >= |base| || base[i] != screen[i]) :: screen[i])
  }

  function Overlay(shown: Frame, image: Image): Frame
    requires image.Delta?
  {
    seq(image.size, i requires 0 <= i < image.size =>
      if i in image.changes then image.changes[i] else if i < |shown| then shown[i] else 0)
  }

  /** A difference restores the screen on whoever shows the base it was taken against. */
  lemma OverlayDiff(base: Frame, screen: Frame)
    ensures Overlay(base, Diff(base, screen)) == screen
  {}

  /** On another picture it restores the screen exactly when that picture already has every unchanged block right. */
  lemma OverlayElsewhere(shown: Frame, base: Frame, screen: Frame)
    ensures Overlay(shown, Diff(base, screen)) == screen
       <==> forall i :: 0 <= i < |screen| && i < |base| && base[i] == screen[i] ==>
              (if i < |shown| then shown[i] else 0) == screen[i]
  {
    var r := Overlay(shown, Diff(base, screen));
    if r == screen {
      forall i | 0 <= i < |screen| && i < |base| && base[i] == screen[i]
        ensures (if i < |shown| then shown[i] else 0) == screen[i]
      {
        assert r[i] == screen[i];
      }
    }
  }

  /** The video engine: the picture it compares against, and how it is configured. */
  datatype Engine = Engine(reference: Frame, config: Config)
  {
    /** A trigger captures the screen, which becomes the reference whatever is made of it. */
    function Trigger(screen: Frame): Engine {
      this.(reference := screen)
    }

    function Encode(differential: bool, screen: Frame): Image {
      if differential then Diff(reference, screen) else Full(screen)
    }
  }

  /** One transfer to the client: header and image.  encoded is how the engine really made the image. */
  datatype Transfer =
    | NoTransfer
    | JpegTransfer(frame: Frame)
    | AspeedTransfer(firstFrame: bool, announced: Settings, encoded: Config, image: Image)

  /** The client's ASPEED picture: what it shows and under which settings, or nothing usable. */
  datatype Picture = Garbage | Showing(frame: Frame, settings: Settings)

  /** A frame is readable only under the settings it was encoded with; a difference also needs a picture under them. */
  function Decode(p: Picture, t: Transfer): Picture {
    if !t.AspeedTransfer? then p
    else if t.encoded.format != Aspeed || t.encoded.settings != t.announced then Garbage
    else if t.image.Full? then Showing(t.image.frame, t.announced)
    else if p.Garbage? || p.settings != t.announced then Garbage
    else Showing(Overlay(p.frame, t.image), t.announced)
  }
}
