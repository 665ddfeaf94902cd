/** The `Badge` controller of badge_controller/badge.py as a state machine.
    The BLE client is reduced to whether a client object is held and whether
    its link is up; every GATT write it would make is appended to `writes`;
    the notification channel is the FIFO `queue`; and every call of the
    user's notification callback is appended to `deliveries`. Waiting with a
    timeout becomes "take the oldest queued notification, or None when the
    queue is empty". */
module BadgeController {
  import opened Bytes
  import opened Protocol
  import opened Encryption
  import opened Commands

  /** A `BleakClient`; `connected` is its own `is_connected`. */
  datatype Link = Link(connected: bool)

  /** A user notification callback, known by an identity only. */
  datatype Callback = Callback(id: nat)

  /** One `write_gatt_char` call: characteristic, bytes, and whether a
      write response was requested. */
  datatype Write = Write(target: Characteristic, value: seq<byte>, withResponse: bool)

  /** One call of the user's callback with a decrypted notification. */
  datatype Delivery = Delivery(callback: Callback, data: seq<byte>)

  /** The queue after `get()`: the oldest element removed, if any. */
  function Dequeued(q: seq<seq<byte>>): (r: seq<seq<byte>>)
    ensures q != [] ==> q == [q[0]] + r
    ensures q == [] ==> r == []
  {
    if q == [] then [] else q[1..]
  }

  /** The image packets, written in order to IMAGE_UPLOAD without response. */
  function ImageWrites(packets: seq<seq<byte>>): (w: seq<Write>)
    ensures |w| == |packets|
    ensures forall i :: 0 <= i < |packets| ==> w[i] == Write(ImageUpload, packets[i], false)
  {
    if packets == [] then [] else [Write(ImageUpload, packets[0], false)] + ImageWrites(packets[1..])
  }

  /** The writes of a whole upload: DATS with the data length, the image
      packets, then the data-complete block. */
  function UploadWrites(c: Cipher, dataComplete: Block, imageData: seq<byte>): seq<Write>
    requires |imageData| <= 256 * MAX_IMAGE_PAYLOAD
  {
    PacketsOutcome(imageData);
    [Write(Command, DataStartDefault(c, |imageData|).value, true)]
    + ImageWrites(Packets(imageData).value)
    + [Write(Command, dataComplete, true)]
  }

  /** The values of the IMAGE_UPLOAD writes among `w`, in order. */
  function ImageValues(w: seq<Write>): (v: seq<seq<byte>>)
    ensures |v| <= |w|
  {
    if w == [] then []
    else (if w[0].target == ImageUpload then [w[0].value] else []) + ImageValues(w[1..])
  }

  lemma {:induction false} ImageValuesAppend(a: seq<Write>, b: seq<Write>)
    ensures ImageValues(a + b) == ImageValues(a) + ImageValues(b)
  {
    if a == [] {
      assert a + b == b;
    } else {
      var head := if a[0].target == ImageUpload then [a[0].value] else [];
      assert (a + b)[0] == a[0];
      assert (a + b)[1..] == a[1..] + b;
      assert ImageValues(a + b) == head + ImageValues(a[1..] + b);
      assert ImageValues(a) == head + ImageValues(a[1..]);
      ImageValuesAppend(a[1..], b);
      assert head + (ImageValues(a[1..]) + ImageValues(b)) == (head + ImageValues(a[1..])) + ImageValues(b);
    }
  }

  lemma {:induction false} ImageValuesOfImageWrites(packets: seq<seq<byte>>)
    ensures ImageValues(ImageWrites(packets)) == packets
  {
    if packets != [] {
      ImageValuesOfImageWrites(packets[1..]);
      assert ImageWrites(packets)[1..] == ImageWrites(packets[1..]);
    }
  }

  /** The upload is complete: the bytes written to IMAGE_UPLOAD during an
      upload, with their two header bytes dropped and concatenated in
      write order, are exactly the image data; and the DATS block announces
      its length modulo 65536. */
  lemma UploadCarriesImage(c: Cipher, dataComplete: Block, imageData: seq<byte>)
    requires |imageData| <= 256 * MAX_IMAGE_PAYLOAD
    ensures Flatten(Payloads(ImageValues(UploadWrites(c, dataComplete, imageData)))) == imageData
    ensures UploadWrites(c, dataComplete, imageData)[0] ==
              Write(Command, c.encrypt(PadToBlockSize([9] + DATS + LengthBytes(|imageData|) + [0, 0, 0])), true)
  {
    UploadImageValues(c, dataComplete, imageData);
    PacketsSpec(imageData);
  }

  /** The IMAGE_UPLOAD values of an upload are its packets: DATS and
      DATCP go to COMMAND. */
  lemma UploadImageValues(c: Cipher, dataComplete: Block, imageData: seq<byte>)
    requires |imageData| <= 256 * MAX_IMAGE_PAYLOAD
    ensures Packets(imageData).Ok?
    ensures ImageValues(UploadWrites(c, dataComplete, imageData)) == Packets(imageData).value
  {
    PacketsOutcome(imageData);
    var ps := Packets(imageData).value;
    var dats := Write(Command, DataStartDefault(c, |imageData|).value, true);
    var done := Write(Command, dataComplete, true);
    ImageValuesAppend([dats] + ImageWrites(ps), [done]);
    ImageValuesAppend([dats], ImageWrites(ps));
    ImageValuesOfImageWrites(ps);
    assert ImageValues([dats]) == [] by {
      assert [dats][1..] == [];
    }
    assert ImageValues([done]) == [] by {
      assert [done][1..] == [];
    }
    assert UploadWrites(c, dataComplete, imageData) == [dats] + ImageWrites(ps) + [done];
  }

  /** The MODE, LIGHT and SPEED writes that `send_text` makes after a
      successful upload, up to the first argument that is not a byte. */
  function SettingWrites(c: Cipher, scrollMode: int, brightness: int, speed: int): seq<Write> {
    if !IsByte(scrollMode) then []
    else if !IsByte(brightness) then [Write(Command, Mode(c, scrollMode).value, true)]
    else if !IsByte(speed) then
      [Write(Command, Mode(c, scrollMode).value, true), Write(Command, Light(c, brightness).value, true)]
    else
      [Write(Command, Mode(c, scrollMode).value, true), Write(Command, Light(c, brightness).value, true),
       Write(Command, Speed(c, speed).value, true)]
  }

  class Badge {
    /** AES-ECB under AES_KEY. */
    const cipher: Cipher
    /** The DATCP block that ends an upload (see README: `Command` has no
        `data_complete`, so the block is given at construction). */
    const dataComplete: Block
    /** `asyncio.Queue()`'s maxsize: 0, that is, unbounded. */
    const maxSize: nat

    var client: Option<Link>
    var callback: Option<Callback>
    var queue: seq<seq<byte>>
    var writes: seq<Write>
    var deliveries: seq<Delivery>

    /** `Badge(address)`: no client, no callback, an empty unbounded queue. */
    constructor(cipher: Cipher, dataComplete: Block)
      ensures this.cipher == cipher && this.dataComplete == dataComplete && maxSize == 0
      ensures client == None && callback == None && queue == []
      ensures writes == [] && deliveries == []
    {
      this.cipher := cipher;
      this.dataComplete := dataComplete;
      maxSize := 0;
      client := None;
      callback := None;
      queue := [];
      writes := [];
      deliveries := [];
    }

    /** `is_connected`: a client is held and its link is up. */
    predicate IsConnected()
      reads this
      ensures IsConnected() <==> client.Some? && client.value.connected
    {
      client.Some? && client.value.connected
    }

    /** `connect`: a fresh client whose link is up; nothing is written. */
    method Connect()
      modifies this
      ensures client == Some(Link(true)) && IsConnected()
      ensures callback == old(callback) && queue == old(queue)
      ensures writes == old(writes) && deliveries == old(deliveries)
    {
      client := Some(Link(true));
    }

    /** `disconnect`: the client is dropped whatever the state of its link. */
    method Disconnect()
      modifies this
      ensures client == None && !IsConnected()
      ensures callback == old(callback) && queue == old(queue)
      ensures writes == old(writes) && deliveries == old(deliveries)
    {
      client := None;
    }

    /** The link of a held client goes down (the badge walks out of range
        or is switched off): `is_connected` turns false while the client
        object is kept. */
    method DropLink()
      modifies this
      ensures client == (if old(client).Some? then Some(Link(false)) else None) && !IsConnected()
      ensures callback == old(callback) && queue == old(queue)
      ensures writes == old(writes) && deliveries == old(deliveries)
    {
      if client.Some? {
        client := Some(Link(false));
      }
    }

    /** `_send_command`: a COMMAND write with response, or RuntimeError
        and no write when there is no client. */
    method SendCommand(packet: seq<byte>) returns (r: Result<()>)
      modifies this
      ensures client == old(client) && callback == old(callback) && queue == old(queue)
      ensures deliveries == old(deliveries)
      ensures client.None? ==> r == Err(NotConnected) && writes == old(writes)
      ensures client.Some? ==> r == Ok(()) && writes == old(writes) + [Write(Command, packet, true)]
    {
      if client.None? {
        return Err(NotConnected);
      }
      writes := writes + [Write(Command, packet, true)];
      r := Ok(());
    }

    /** `_send_image_data`: an IMAGE_UPLOAD write without response, or
        RuntimeError and no write when there is no client. */
    method SendImageData(packet: seq<byte>) returns (r: Result<()>)
      modifies this
      ensures client == old(client) && callback == old(callback) && queue == old(queue)
      ensures deliveries == old(deliveries)
      ensures client.None? ==> r == Err(NotConnected) && writes == old(writes)
      ensures client.Some? ==> r == Ok(()) && writes == old(writes) + [Write(ImageUpload, packet, false)]
    {
      if client.None? {
        return Err(NotConnected);
      }
      writes := writes + [Write(ImageUpload, packet, false)];
      r := Ok(());
    }

    /** `_handle_notification`: decrypt, hand the plaintext to the callback
        if one is set, then queue it unless the queue is full. A
        notification that is not a whole number of blocks raises from the
        decryption and changes nothing. */
    method HandleNotification(data: seq<byte>) returns (r: Result<()>)
      modifies this
      ensures client == old(client) && callback == old(callback) && writes == old(writes)
      ensures DecryptResponse(cipher, data).Err? ==>
        r == Err(NotBlockMultiple) && queue == old(queue) && deliveries == old(deliveries)
      ensures DecryptResponse(cipher, data).Ok? ==>
        var plain := DecryptResponse(cipher, data).value;
        r == Ok(()) &&
        deliveries == old(deliveries) + (if callback.Some? then [Delivery(callback.value, plain)] else []) &&
        queue == (if 0 < maxSize <= |old(queue)| then old(queue) else old(queue) + [plain])
    {
      var decrypted := DecryptResponse(cipher, data);
      if decrypted.Err? {
        return Err(decrypted.error);
      }
      if callback.Some? {
        deliveries := deliveries + [Delivery(callback.value, decrypted.value)];
      }
      if 0 < maxSize <= |queue| {
        // QueueFull: the notification is dropped.
      } else {
        queue := queue + [decrypted.value];
      }
      r := Ok(());
    }

    /** `on_notification`: replace the callback; None clears it. */
    method OnNotification(cb: Option<Callback>)
      modifies this
      ensures callback == cb
      ensures client == old(client) && queue == old(queue)
      ensures writes == old(writes) && deliveries == old(deliveries)
    {
      callback := cb;
    }

    /** `wait_notification`: the oldest queued notification, removed from
        the queue, or None (the timeout) when the queue is empty. */
    method WaitNotification() returns (n: Option<seq<byte>>)
      modifies this
      ensures old(queue) == [] ==> n == None
      ensures old(queue) != [] ==> n == Some(old(queue)[0])
      ensures queue == Dequeued(old(queue))
      ensures client == old(client) && callback == old(callback)
      ensures writes == old(writes) && deliveries == old(deliveries)
    {
      if queue == [] {
        return None;
      }
      n := Some(queue[0]);
      queue := queue[1..];
    }

    /** A command builder's result sent on COMMAND: its error is raised
        before anything is written. */
    method SendBuilt(built: Result<Block>) returns (r: Result<()>)
      modifies this
      ensures client == old(client) && callback == old(callback) && queue == old(queue)
      ensures deliveries == old(deliveries)
      ensures built.Err? ==> r == Err(built.error) && writes == old(writes)
      ensures built.Ok? && client.None? ==> r == Err(NotConnected) && writes == old(writes)
      ensures built.Ok? && client.Some? ==> r == Ok(()) && writes == old(writes) + [Write(Command, built.value, true)]
    {
      if built.Err? {
        return Err(built.error);
      }
      r := SendCommand(built.value);
    }

    /** `set_scroll_mode`. */
    method SetScrollMode(mode: int) returns (r: Result<()>)
      modifies this
      ensures client == old(client) && callback == old(callback) && queue == old(queue)
      ensures deliveries == old(deliveries)
      ensures !IsByte(mode) ==> r == Err(ByteOutOfRange) && writes == old(writes)
      ensures IsByte(mode) && client.None? ==> r == Err(NotConnected) && writes == old(writes)
      ensures IsByte(mode) && client.Some? ==>
        r == Ok(()) && writes == old(writes) + [Write(Command, cipher.encrypt(PadToBlockSize([5] + MODE + [mode])), true)]
    {
      r := SendBuilt(Mode(cipher, mode));
    }

    /** `set_brightness`. */
    method SetBrightness(level: int) returns (r: Result<()>)
      modifies this
      ensures client == old(client) && callback == old(callback) && queue == old(queue)
      ensures deliveries == old(deliveries)
      ensures !IsByte(level) ==> r == Err(ByteOutOfRange) && writes == old(writes)
      ensures IsByte(level) && client.None? ==> r == Err(NotConnected) && writes == old(writes)
      ensures IsByte(level) && client.Some? ==>
        r == Ok(()) && writes == old(writes) + [Write(Command, cipher.encrypt(PadToBlockSize([6] + LIGHT + [level])), true)]
    {
      r := SendBuilt(Light(cipher, level));
    }

    /** `set_speed`. */
    method SetSpeed(speed: int) returns (r: Result<()>)
      modifies this
      ensures client == old(client) && callback == old(callback) && queue == old(queue)
      ensures deliveries == old(deliveries)
      ensures !IsByte(speed) ==> r == Err(ByteOutOfRange) && writes == old(writes)
      ensures IsByte(speed) && client.None? ==> r == Err(NotConnected) && writes == old(writes)
      ensures IsByte(speed) && client.Some? ==>
        r == Ok(()) && writes == old(writes) + [Write(Command, cipher.encrypt(PadToBlockSize([6] + SPEED + [speed])), true)]
    {
      r := SendBuilt(Speed(cipher, speed));
    }

    /** `check_images`: send CHEC, then wait for one notification. */
    method CheckImages() returns (r: Result<Option<seq<byte>>>)
      modifies this
      ensures client == old(client) && callback == old(callback)
      ensures deliveries == old(deliveries)
      ensures client.None? ==> r == Err(NotConnected) && writes == old(writes) && queue == old(queue)
      ensures client.Some? ==>
        writes == old(writes) + [Write(Command, cipher.encrypt(PadToBlockSize([4] + CHEC)), true)] &&
        queue == Dequeued(old(queue)) &&
        r == Ok(if old(queue) == [] then None else Some(old(queue)[0]))
    {
      var sent := SendCommand(Check(cipher).value);
      if sent.Err? {
        return Err(sent.error);
      }
      var n := WaitNotification();
      r := Ok(n);
    }

    /** The packet loop of `upload_image`: every packet in order, each as
        one IMAGE_UPLOAD write. */
    method SendPackets(packets: seq<seq<byte>>)
      requires client.Some?
      modifies this
      ensures client == old(client) && callback == old(callback) && queue == old(queue)
      ensures deliveries == old(deliveries)
      ensures writes == old(writes) + ImageWrites(packets)
    {
      for i := 0 to |packets|
        invariant client == old(client) && callback == old(callback) && queue == old(queue)
        invariant deliveries == old(deliveries)
        invariant writes == old(writes) + ImageWrites(packets[..i])
      {
        var _ := SendImageData(packets[i]);
        assert packets[..i + 1] == packets[..i] + [packets[i]];
        ImageWritesAppend(packets[..i], packets[i]);
      }
      assert packets[..|packets|] == packets;
    }

    /** The tail of `upload_image`: the packets in order, then the
        data-complete block. */
    method FinishUpload(packets: seq<seq<byte>>)
      requires client.Some?
      modifies this
      ensures client == old(client) && callback == old(callback) && queue == old(queue)
      ensures deliveries == old(deliveries)
      ensures writes == old(writes) + ImageWrites(packets) + [Write(Command, dataComplete, true)]
    {
      SendPackets(packets);
      var _ := SendCommand(dataComplete);
    }

    /** `upload_image`: DATS with the data length, wait for one
        notification, the image packets in order, then the data-complete
        block. It reports whether a notification arrived, whatever it
        says; the packets are sent even when none did. Data that needs more
        than 256 packets fails after DATS, when the packets are built. */
    method UploadImage(imageData: seq<byte>) returns (r: Result<bool>)
      modifies this
      ensures client == old(client) && callback == old(callback)
      ensures deliveries == old(deliveries)
      ensures client.None? ==> r == Err(NotConnected) && writes == old(writes) && queue == old(queue)
      ensures client.Some? ==> queue == Dequeued(old(queue))
      ensures client.Some? && |imageData| > 256 * MAX_IMAGE_PAYLOAD ==>
        r == Err(ByteOutOfRange) &&
        writes == old(writes) + [Write(Command, DataStartDefault(cipher, |imageData|).value, true)]
      ensures client.Some? && |imageData| <= 256 * MAX_IMAGE_PAYLOAD ==>
        r == Ok(old(queue) != []) &&
        writes == old(writes) + UploadWrites(cipher, dataComplete, imageData)
    {
      ghost var before := writes;
      var dats := DataStartDefault(cipher, |imageData|).value;
      var sent := SendCommand(dats);
      if sent.Err? {
        return Err(sent.error);
      }
      var response := WaitNotification();
      var built := BuildPackets(imageData);
      PacketsOutcome(imageData);
      if built.Err? {
        return Err(built.error);
      }
      FinishUpload(built.value);
      ghost var first, done := Write(Command, dats, true), Write(Command, dataComplete, true);
      ConcatAssoc(before, [first], ImageWrites(built.value), [done]);
      assert UploadWrites(cipher, dataComplete, imageData) == [first] + ImageWrites(built.value) + [done];
      r := Ok(response.Some?);
    }

    /** `send_text`: render the text, upload it, and only when the upload
        was acknowledged send MODE, LIGHT and SPEED with the given values.
        The image slot is accepted and not used. */
    method SendText(text: string, render: string -> seq<byte>, scrollMode: int, brightness: int,
                    speed: int, imageSlot: int) returns (r: Result<bool>)
      modifies this
      ensures client == old(client) && callback == old(callback)
      ensures deliveries == old(deliveries)
      ensures client.None? ==> r == Err(NotConnected) && writes == old(writes) && queue == old(queue)
      ensures client.Some? ==> queue == Dequeued(old(queue))
      ensures client.Some? && |render(text)| > 256 * MAX_IMAGE_PAYLOAD ==>
        r == Err(ByteOutOfRange) &&
        writes == old(writes) + [Write(Command, DataStartDefault(cipher, |render(text)|).value, true)]
      ensures client.Some? && |render(text)| <= 256 * MAX_IMAGE_PAYLOAD ==>
        var uploaded := old(writes) + UploadWrites(cipher, dataComplete, render(text));
        if old(queue) == [] then
          r == Ok(false) && writes == uploaded
        else
          writes == uploaded + SettingWrites(cipher, scrollMode, brightness, speed) &&
          r == (if IsByte(scrollMode) && IsByte(brightness) && IsByte(speed) then Ok(true) else Err(ByteOutOfRange))
    {
      var bitmapData := render(text);
      var success := UploadImage(bitmapData);
      if success.Err? {
        return Err(success.error);
      }
      if success.value {
        var m := SetScrollMode(scrollMode);
        if m.Err? {
          return Err(m.error);
        }
        var b := SetBrightness(brightness);
        if b.Err? {
          return Err(b.error);
        }
        var s := SetSpeed(speed);
        if s.Err? {
          return Err(s.error);
        }
      }
      r := Ok(success.value);
    }

    /** `send_text` with its default arguments: scroll LEFT, brightness
        128, speed 50, image slot 0. */
    method SendTextDefault(text: string, render: string -> seq<byte>) returns (r: Result<bool>)
      modifies this
      ensures client == old(client) && callback == old(callback)
      ensures deliveries == old(deliveries)
      ensures client.None? ==> r == Err(NotConnected) && writes == old(writes) && queue == old(queue)
      ensures client.Some? ==> queue == Dequeued(old(queue))
      ensures client.Some? && |render(text)| <= 256 * MAX_IMAGE_PAYLOAD ==>
        r == Ok(old(queue) != []) &&
        writes == old(writes) + UploadWrites(cipher, dataComplete, render(text)) +
          (if old(queue) == [] then [] else
            [Write(Command, cipher.encrypt(PadToBlockSize([5] + MODE + [ScrollModeValue(Left)])), true),
             Write(Command, cipher.encrypt(PadToBlockSize([6] + LIGHT + [128])), true),
             Write(Command, cipher.encrypt(PadToBlockSize([6] + SPEED + [50])), true)])
    {
      r := SendText(text, render, ScrollModeValue(Left), 128, 50, 0);
    }
  }

  lemma ImageWritesAppend(packets: seq<seq<byte>>, packet: seq<byte>)
    ensures ImageWrites(packets + [packet]) == ImageWrites(packets) + [Write(ImageUpload, packet, false)]
  {
    var a, b := ImageWrites(packets + [packet]), ImageWrites(packets) + [Write(ImageUpload, packet, false)];
    assert |a| == |b|;
    forall i | 0 <= i < |a|
      ensures a[i] == b[i]
    {
      if i < |packets| {
        assert (packets + [packet])[i] == packets[i];
      }
    }
  }
}
