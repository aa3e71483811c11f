// Firmware transfer as a stop-and-wait protocol: the device's session in
// src/proto/dispatcher.c:712-906 and the host's loop in tools/ota_push.py:174-223.
module OtaTransfer {
  import opened Options
  import opened Machine
  import opened HashBlocks
  import Sha256Stream
  import Base64

  const OTA_MAX_SIZE := 2 * 1024 * 1024
  const OTA_CHUNK_MAX_RAW := 1024
  const OTA_CHUNK_B64_BUF := 1400
  const OTA_CHUNK_DECODE_BUF := 1050
  const CHUNK_SIZE := 1024
  const CHUNK_RETRIES := 5

  type Words = Sha256Stream.Words

  // The compression function of SHA-256 and the signature check, about which
  // nothing is assumed.
  datatype Crypto = Crypto(compression: Compression<Words>, iv: Words, verify: (seq<u8>, seq<u8>) -> bool) {
    ghost function Sha256(bytes: seq<u8>): seq<u8> {
      WordBytes(Sha256Stream.Digest(compression, iv, bytes), 4)
    }

    ghost predicate Signs(signature: seq<u8>, bytes: seq<u8>) {
      verify(Sha256(bytes), signature)
    }
  }

  // One constructor per message that a handler can answer with.
  datatype Refusal =
    | BadSize | BadSignature | NotApproved | OpenFailed
    | NoSession | MissingFields | WrongOffset | TooLong | Malformed | TooLarge | ExceedsSize | WriteFailed
    | ShortImage | FinishFailed

  datatype Reply = Ok | Refused(why: Refusal)

  datatype Request =
    | Begin(size: u64, digest: seq<u8>, signature: seq<u8>)
    | Chunk(offset: u64, data: string)
    | Finish

  // ---- The device ----

  // hashed is what the running hash has absorbed, written what went to flash
  // since the last begin, booted the image last made bootable.
  datatype Device = Device(active: bool, total: u32, received: u32, signature: seq<u8>, hashed: seq<u8>,
                           written: seq<u8>, booted: Option<seq<u8>>)

  // Any outcome that does not depend on the request alone (the owner's answer,
  // a flash operation) may go either way.
  ghost predicate BeginStep(c: Crypto, d: Device, size: u64, digest: seq<u8>, signature: seq<u8>, r: Reply, v: Device) {
    if size == 0 || size > 2097152 then r == Refused(BadSize) && v == d.(active := false)
    else if !c.verify(digest, signature) then r == Refused(BadSignature) && v == d.(active := false)
    else
      || (r in {Refused(NotApproved), Refused(OpenFailed)} && v == d.(active := false))
      || (r == Ok && v == Device(true, size, 0, signature, [], [], d.booted))
  }

  ghost predicate ChunkStep(d: Device, offset: u64, data: string, r: Reply, v: Device) {
    if !d.active then r == Refused(NoSession) && v == d
    else if |data| >= 1400 then r == Refused(MissingFields) && v == d
    else if offset != d.received then r == Refused(WrongOffset) && v == d
    else if |data| / 4 * 3 > 1050 then r == Refused(TooLong) && v == d
    else match Base64.Decode(data)
      case None => r == Refused(Malformed) && v == d
      case Some(raw) =>
        if |raw| > 1024 then r == Refused(TooLarge) && v == d
        else if d.received + |raw| > d.total then r == Refused(ExceedsSize) && v == d.(active := false)
        else
          || (r == Refused(WriteFailed) && v == d.(active := false))
          || (r == Ok && v == d.(received := d.received + |raw|, hashed := d.hashed + raw, written := d.written + raw))
  }

  ghost predicate FinishStep(c: Crypto, d: Device, r: Reply, v: Device) {
    if !d.active then r == Refused(NoSession) && v == d
    else if d.received != d.total then r == Refused(ShortImage) && v == d.(active := false)
    else if !c.Signs(d.signature, d.hashed) then r == Refused(BadSignature) && v == d.(active := false)
    else
      || (r == Refused(FinishFailed) && v == d.(active := false))
      || (r == Ok && v == d.(active := false, booted := Some(d.written)))
  }

  ghost predicate DeviceStep(c: Crypto, d: Device, req: Request, r: Reply, v: Device) {
    match req
    case Begin(size, digest, signature) => BeginStep(c, d, size, digest, signature, r, v)
    case Chunk(offset, data) => ChunkStep(d, offset, data, r, v)
    case Finish => FinishStep(c, d, r, v)
  }

  // What the session asks of the owner and of the partition, and what it is
  // told.
  datatype Call = Approve(yes: bool) | Open(ok: bool) | Write(ok: bool) | Finalize(ok: bool) | Abort

  // The hooks of the dispatcher. The log records every call with its outcome.
  class Platform {
    var image: seq<u8>
    var booted: Option<seq<u8>>
    ghost var log: seq<Call>

    constructor ()
      ensures image == [] && booted == None && log == []
    {
      image, booted, log := [], None, [];
    }

    method AskOwner() returns (yes: bool)
      modifies this`log
      ensures log == old(log) + [Approve(yes)]
    {
      yes := *;
      log := log + [Approve(yes)];
    }

    method OpenPartition() returns (ok: bool)
      modifies this`image, this`log
      ensures log == old(log) + [Open(ok)] && image == if ok then [] else old(image)
    {
      ok := *;
      log := log + [Open(ok)];
      if ok {
        image := [];
      }
    }

    method WriteChunk(bytes: seq<u8>) returns (ok: bool)
      modifies this`image, this`log
      ensures log == old(log) + [Write(ok)] && image == old(image) + if ok then bytes else []
    {
      ok := *;
      log := log + [Write(ok)];
      image := image + if ok then bytes else [];
    }

    method FinalizeImage() returns (ok: bool)
      modifies this`booted, this`log
      ensures log == old(log) + [Finalize(ok)] && booted == if ok then Some(image) else old(booted)
    {
      ok := *;
      log := log + [Finalize(ok)];
      if ok {
        booted := Some(image);
      }
    }

    method AbortWrite()
      modifies this`log
      ensures log == old(log) + [Abort]
    {
      log := log + [Abort];
    }
  }

  // The g_ota session.
  class OtaSession {
    var active: bool
    var totalSize: u32
    var bytesReceived: u32
    var signature: seq<u8>
    var hasher: Sha256Stream.Sha256<Words>
    const platform: Platform
    const crypto: Crypto
    ghost var hashed: seq<u8>

    constructor (crypto: Crypto, platform: Platform)
      requires platform.image == [] && platform.booted == None
      ensures Valid() && fresh(hasher) && fresh(hasher.buf)
      ensures this.crypto == crypto && this.platform == platform
      ensures Now() == Device(false, 0, 0, [], [], [], None)
    {
      this.crypto, this.platform := crypto, platform;
      active, totalSize, bytesReceived, signature, hashed := false, 0, 0, [], [];
      hasher := new Sha256Stream.Sha256(crypto.compression, crypto.iv);
    }

    ghost function Now(): Device
      reads this, platform
    {
      Device(active, totalSize, bytesReceived, signature, hashed, platform.image, platform.booted)
    }

    // The running hash is the one of src/vault/sha256.c.
    ghost predicate Hashing()
      reads this, hasher, hasher.buf
    {
      && hasher.c == crypto.compression && hasher.iv == crypto.iv
      && (active ==> hasher.Valid() && hasher.msg == hashed)
    }

    ghost predicate Valid()
      reads this, platform, hasher, hasher.buf
    {
      Hashing() && Sound(crypto, Now())
    }

    // Any command of the session.
    method Handle(req: Request) returns (r: Reply)
      requires Valid()
      modifies this, platform, hasher, hasher.buf
      ensures Valid() && DeviceStep(crypto, old(Now()), req, r, Now())
      ensures hasher == old(hasher) || (fresh(hasher) && fresh(hasher.buf))
    {
      hide Sound, Hashing, BeginStep, ChunkStep, FinishStep;
      match req {
        case Begin(size, digest, sig) => r := HandleBegin(size, digest, sig);
        case Chunk(offset, data) => r := HandleChunk(offset, data);
        case Finish => r := HandleFinish();
      }
      DeviceStaysSound(crypto, old(Now()), req, r, Now());
    }

    // ota_abort_session.
    method AbortSession()
      requires hasher.c == crypto.compression && hasher.iv == crypto.iv
      modifies this`active, platform`log
      ensures Hashing() && Now() == old(Now()).(active := false)
      ensures platform.log == old(platform.log) + if old(active) then [Abort] else []
    {
      if active {
        platform.AbortWrite();
      }
      active := false;
    }

    method HandleBegin(size: u64, digest: seq<u8>, sig: seq<u8>) returns (r: Reply)
      requires Hashing()
      modifies this, platform
      ensures Hashing() && DeviceStep(crypto, old(Now()), Begin(size, digest, sig), r, Now())
      ensures hasher == old(hasher) || (fresh(hasher) && fresh(hasher.buf))
      ensures var aborted := old(platform.log) + if old(active) then [Abort] else [];
              if size == 0 || size > 2097152 || !crypto.verify(digest, sig) then platform.log == aborted
              else
                || (r == Refused(NotApproved) && platform.log == aborted + [Approve(false)])
                || (r == Refused(OpenFailed) && platform.log == aborted + [Approve(true), Open(false)])
                || (r == Ok && platform.log == aborted + [Approve(true), Open(true)])
    {
      AbortSession();
      if size == 0 || size > OTA_MAX_SIZE {
        return Refused(BadSize);
      }
      if !crypto.verify(digest, sig) {
        return Refused(BadSignature);
      }
      ghost var aborted := platform.log;
      var approved := platform.AskOwner();
      if !approved {
        return Refused(NotApproved);
      }
      var ready := platform.OpenPartition();
      assert aborted + [Approve(approved)] + [Open(ready)] == aborted + [Approve(approved), Open(ready)];
      if !ready {
        return Refused(OpenFailed);
      }
      Start(size, sig);
      r := Ok;
    }

    method Start(size: u32, sig: seq<u8>)
      requires platform.image == []
      modifies this
      ensures Hashing() && fresh(hasher) && fresh(hasher.buf)
      ensures Now() == Device(true, size, 0, sig, [], [], old(platform.booted))
    {
      active, totalSize, bytesReceived, signature, hashed := true, size, 0, sig, [];
      hasher := new Sha256Stream.Sha256(crypto.compression, crypto.iv);
    }

    method HandleChunk(offset: u64, data: string) returns (r: Reply)
      requires Valid()
      modifies this, platform, hasher, hasher.buf
      ensures Hashing() && hasher == old(hasher)
      ensures DeviceStep(crypto, old(Now()), Chunk(offset, data), r, Now())
      ensures platform.log == old(platform.log)
                            + (if r == Ok then [Write(true)]
                               else if r == Refused(WriteFailed) then [Write(false), Abort]
                               else if r == Refused(ExceedsSize) then [Abort] else [])
    {
      assert platform.log + [] == platform.log;
      if !active {
        return Refused(NoSession);
      }
      if |data| >= OTA_CHUNK_B64_BUF {
        return Refused(MissingFields);
      }
      if offset != bytesReceived {
        return Refused(WrongOffset);
      }
      if Base64.DecodedLen(|data|) > OTA_CHUNK_DECODE_BUF {
        return Refused(TooLong);
      }
      var raw := new u8[OTA_CHUNK_DECODE_BUF](_ => 0);
      var ok, len := Base64.DecodeInto(data, raw);
      if !ok {
        return Refused(Malformed);
      }
      if len > OTA_CHUNK_MAX_RAW {
        return Refused(TooLarge);
      }
      if bytesReceived + len > totalSize {
        AbortSession();
        return Refused(ExceedsSize);
      }
      var works := platform.WriteChunk(raw[..len]);
      if !works {
        assert old(platform.image) + [] == old(platform.image);
        assert old(platform.log) + [Write(false)] + [Abort] == old(platform.log) + [Write(false), Abort];
        AbortSession();
        return Refused(WriteFailed);
      }
      Take(raw[..len]);
      r := Ok;
    }

    // What flash has accepted is hashed and counted.
    method Take(bytes: seq<u8>)
      requires Hashing() && active && bytesReceived + |bytes| <= totalSize
      modifies this, hasher, hasher.buf
      ensures Hashing() && hasher == old(hasher)
      ensures Now() == old(Now()).(received := old(bytesReceived) + |bytes|, hashed := old(hashed) + bytes)
    {
      hasher.Update(bytes);
      hashed := hashed + bytes;
      bytesReceived := bytesReceived + |bytes|;
    }

    method HandleFinish() returns (r: Reply)
      requires Hashing()
      modifies this, platform, hasher, hasher.buf
      ensures Hashing() && hasher == old(hasher)
      ensures DeviceStep(crypto, old(Now()), Finish, r, Now())
      ensures if !old(active) then platform.log == old(platform.log)
              else if old(bytesReceived) != old(totalSize) || !crypto.Signs(old(signature), old(hashed)) then
                platform.log == old(platform.log) + [Abort]
              else
                || (r == Ok && platform.log == old(platform.log) + [Finalize(true)]
                    && platform.booted == Some(old(platform.image)))
                || (r == Refused(FinishFailed) && platform.log == old(platform.log) + [Finalize(false), Abort])
    {
      if !active {
        return Refused(NoSession);
      }
      if bytesReceived != totalSize {
        AbortSession();
        return Refused(ShortImage);
      }
      hasher.Final();
      var digest := new u8[32];
      StoreWords(hasher.h, 4, digest);
      if !crypto.verify(digest[..], signature) {
        AbortSession();
        return Refused(BadSignature);
      }
      var works := platform.FinalizeImage();
      if !works {
        AbortSession();
        assert old(platform.log) + [Finalize(false)] + [Abort] == old(platform.log) + [Finalize(false), Abort];
        return Refused(FinishFailed);
      }
      active := false;
      r := Ok;
    }
  }

  // What is true of a device whoever talks to it: the hash runs over exactly
  // what was written, and nothing unsigned is ever made bootable.
  ghost predicate Sound(c: Crypto, d: Device) {
    && (d.active ==> d.hashed == d.written && d.received == |d.written| <= d.total <= OTA_MAX_SIZE)
    && (d.booted.Some? ==> exists signature :: c.Signs(signature, d.booted.value))
  }

  lemma DeviceStaysSound(c: Crypto, d: Device, req: Request, r: Reply, v: Device)
    requires Sound(c, d) && DeviceStep(c, d, req, r, v)
    ensures Sound(c, v)
    ensures req.Finish? && r == Ok ==> v.booted == Some(d.written) && |d.written| == d.total
  {
    hide Base64.Decode;
    if req.Finish? && r == Ok {
      assert c.Signs(d.signature, v.booted.value);
    }
  }

  // ---- The host ----

  datatype Host =
    | Starting
    | Sending(offset: nat, attempt: nat)
    | Finishing
    | Done
    | Failed

  // A refusal that mentions the offset reads as an acknowledgement that was
  // lost: src/proto/dispatcher.c:831 and 840 are the two that do.
  predicate AlreadyApplied(r: Reply) {
    r == Refused(WrongOffset) || r == Refused(MissingFields)
  }

  function Slice(image: seq<u8>, offset: nat): (chunk: seq<u8>)
    requires offset <= |image|
    ensures |chunk| <= CHUNK_SIZE && (offset < |image| ==> chunk != []) && offset + |chunk| <= |image|
    ensures image[..offset + |chunk|] == image[..offset] + chunk
  {
    if offset + CHUNK_SIZE <= |image| then image[offset..offset + CHUNK_SIZE] else image[offset..]
  }

  // The image, its digest and its signature, as the host holds them.
  datatype Job = Job(image: seq<u8>, digest: seq<u8>, signature: seq<u8>) {
    predicate Fits() {
      |image| < 0x1_0000_0000_0000_0000
    }
  }

  function NextRequest(job: Job, h: Host): Request
    requires job.Fits() && (h.Starting? || h.Finishing? || (h.Sending? && h.offset <= |job.image|))
  {
    match h
    case Starting => Begin(|job.image|, job.digest, job.signature)
    case Sending(offset, _) => Chunk(offset, Base64.Encode(Slice(job.image, offset)))
    case Finishing => Finish
  }

  // Chunks until none are left.
  function SendFrom(job: Job, offset: nat): Host {
    if offset < |job.image| then Sending(offset, 1) else Finishing
  }

  // What the host makes of a reply, or of none in time.
  function React(job: Job, h: Host, r: Option<Reply>): Host {
    match h
    case Starting => if r == Some(Ok) then SendFrom(job, 0) else Failed
    case Sending(offset, attempt) =>
      if offset > |job.image| then Failed
      else if r == Some(Ok) || (r.Some? && AlreadyApplied(r.value)) then
        SendFrom(job, offset + |Slice(job.image, offset)|)
      else if attempt < CHUNK_RETRIES then Sending(offset, attempt + 1)
      else Failed
    case Finishing => if r == Some(Ok) then Done else Failed
    case _ => h
  }

  predicate Talking(job: Job, h: Host) {
    h.Starting? || h.Finishing? || (h.Sending? && h.offset <= |job.image|)
  }

  // ---- A channel that may lose, delay and repeat ----

  datatype Answer = Answer(about: Request, reply: Reply)

  // Everything ever sent stays deliverable, any number of times; a message is
  // named by its place among all there have been.
  datatype Net = Net(device: Device, host: Host, awaiting: bool, sent: seq<Request>, answers: seq<Answer>)

  datatype Event = Send | Serve(i: nat, reply: Reply) | Read(i: nat) | GiveUp | Restart

  // The host sends; a request reaches the device; a reply reaches the host, or
  // none does in time; the device restarts.
  ghost predicate NetStep(c: Crypto, job: Job, s: Net, e: Event, v: Net) {
    match e
    case Send =>
      && job.Fits() && !s.awaiting && Talking(job, s.host)
      && v == s.(awaiting := true, sent := s.sent + [NextRequest(job, s.host)])
    case Serve(i, reply) =>
      && i < |s.sent| && DeviceStep(c, s.device, s.sent[i], reply, v.device)
      && v == s.(device := v.device, answers := s.answers + [Answer(s.sent[i], reply)])
    case Read(i) =>
      && s.awaiting && i < |s.answers|
      && v == s.(awaiting := false, host := React(job, s.host, Some(s.answers[i].reply)))
    case GiveUp => s.awaiting && v == s.(awaiting := false, host := React(job, s.host, None))
    case Restart => v == s.(device := s.device.(active := false))
  }

  ghost predicate Fresh(s: Net) {
    && !s.device.active && s.device.booted == None && s.host == Starting
    && !s.awaiting && s.sent == [] && s.answers == []
  }

  ghost predicate NetRun(c: Crypto, job: Job, ss: seq<Net>, es: seq<Event>) {
    && |ss| == |es| + 1 && Fresh(ss[0])
    && forall k | 0 <= k < |es| :: NetStep(c, job, ss[k], es[k], ss[k + 1])
  }

  // Every request there is comes from this job.
  ghost predicate FromJob(job: Job, req: Request) {
    match req
    case Begin(size, digest, signature) => size == |job.image| && digest == job.digest && signature == job.signature
    case Chunk(offset, data) => offset <= |job.image| && data == Base64.Encode(Slice(job.image, offset))
    case Finish => true
  }

  // What was written is a prefix of the image, and the hash is of that prefix.
  ghost predicate HoldsPrefix(job: Job, d: Device) {
    && (d.active ==>
          && d.total == |job.image| && d.received <= |job.image|
          && d.written == job.image[..d.received] && d.hashed == d.written)
    && (d.booted.Some? ==> d.booted.value == job.image)
  }

  lemma ChunkKeepsPrefix(job: Job, d: Device, offset: u64, data: string, r: Reply, v: Device)
    requires HoldsPrefix(job, d) && FromJob(job, Chunk(offset, data)) && ChunkStep(d, offset, data, r, v)
    ensures HoldsPrefix(job, v)
    ensures r == Ok ==> d.active && offset == d.received && v.received == offset + |Slice(job.image, offset)|
    ensures d.active && offset != d.received && r.Refused? ==> AlreadyApplied(r)
  {
    Base64.RoundTrip(Slice(job.image, offset));
    hide Base64.Decode, Base64.Encode;
  }

  lemma DeviceKeepsPrefix(c: Crypto, job: Job, d: Device, req: Request, r: Reply, v: Device)
    requires HoldsPrefix(job, d) && FromJob(job, req) && DeviceStep(c, d, req, r, v)
    ensures HoldsPrefix(job, v)
    ensures req.Finish? && r == Ok ==> v.booted == Some(job.image) && d.written == job.image
  {
    if req.Chunk? {
      ChunkKeepsPrefix(job, d, req.offset, req.data, r, v);
    }
    hide Base64.Decode, Base64.Encode;
  }

  ghost predicate AllFromJob(job: Job, s: Net) {
    forall i | 0 <= i < |s.sent| :: FromJob(job, s.sent[i])
  }

  lemma {:induction false} PrefixUnderDelay(c: Crypto, job: Job, ss: seq<Net>, es: seq<Event>, k: nat)
    requires NetRun(c, job, ss, es) && k < |ss|
    ensures HoldsPrefix(job, ss[k].device) && AllFromJob(job, ss[k])
  {
    if k > 0 {
      PrefixUnderDelay(c, job, ss, es, k - 1);
      hide NetStep, HoldsPrefix, AllFromJob;
      StepKeepsPrefix(c, job, ss[k - 1], es[k - 1], ss[k]);
    }
  }

  lemma StepKeepsPrefix(c: Crypto, job: Job, s: Net, e: Event, v: Net)
    requires NetStep(c, job, s, e, v) && HoldsPrefix(job, s.device) && AllFromJob(job, s)
    ensures HoldsPrefix(job, v.device) && AllFromJob(job, v)
  {
    hide DeviceStep, Base64.Encode;
    if e.Serve? {
      hide HoldsPrefix;
      DeviceKeepsPrefix(c, job, s.device, s.sent[e.i], e.reply, v.device);
    }
  }

  // Whatever the channel does, ota_finish answers ok only for the image.
  lemma FinishMeansImage(c: Crypto, job: Job, ss: seq<Net>, es: seq<Event>, k: nat, r: Reply, v: Device)
    requires NetRun(c, job, ss, es) && k < |ss| && DeviceStep(c, ss[k].device, Finish, r, v) && r == Ok
    ensures v.booted == Some(job.image) && ss[k].device.written == job.image
  {
    PrefixUnderDelay(c, job, ss, es, k);
    DeviceKeepsPrefix(c, job, ss[k].device, Finish, r, v);
  }

  // ---- When the host is right ----

  const FINISHED: Answer := Answer(Finish, Ok)

  lemma ServeBoots(c: Crypto, job: Job, d: Device, req: Request, r: Reply, v: Device)
    requires HoldsPrefix(job, d) && FromJob(job, req) && DeviceStep(c, d, req, r, v)
    ensures v.booted == if req.Finish? && r == Ok then Some(job.image) else d.booted
  {
    DeviceKeepsPrefix(c, job, d, req, r, v);
    hide Base64.Decode, Base64.Encode;
  }

  // Over any channel, the device has booted the image if and only if it has
  // answered ok to a finish; otherwise it has booted nothing.
  lemma {:induction false} BootedIffAnswered(c: Crypto, job: Job, ss: seq<Net>, es: seq<Event>, k: nat)
    requires NetRun(c, job, ss, es) && k < |ss|
    ensures ss[k].device.booted == if FINISHED in ss[k].answers then Some(job.image) else None
  {
    if k > 0 {
      BootedIffAnswered(c, job, ss, es, k - 1);
      PrefixUnderDelay(c, job, ss, es, k - 1);
      hide HoldsPrefix, DeviceStep, Base64.Encode;
      var s, e, v := ss[k - 1], es[k - 1], ss[k];
      assert NetStep(c, job, s, e, v);
      if e.Serve? {
        ServeBoots(c, job, s.device, s.sent[e.i], e.reply, v.device);
      }
    }
  }

  // The host takes nothing for the outcome but an answer to its finish: what
  // the tag that the device echoes would let it do.
  ghost predicate Tagged(ss: seq<Net>, es: seq<Event>)
    requires |ss| == |es| + 1
  {
    forall k | 0 <= k < |es| && es[k].Read? && ss[k].host.Finishing? && es[k].i < |ss[k].answers| ::
      ss[k].answers[es[k].i].about.Finish?
  }

  // Such a host is right, whatever the channel loses, delays and repeats.
  lemma {:induction false} TaggedHostIsRight(c: Crypto, job: Job, ss: seq<Net>, es: seq<Event>, k: nat)
    requires NetRun(c, job, ss, es) && Tagged(ss, es) && k < |ss| && ss[k].host.Done?
    ensures ss[k].device.booted == Some(job.image)
  {
    DoneWasAnswered(c, job, ss, es, k);
    BootedIffAnswered(c, job, ss, es, k);
  }

  lemma {:induction false} DoneWasAnswered(c: Crypto, job: Job, ss: seq<Net>, es: seq<Event>, k: nat)
    requires NetRun(c, job, ss, es) && Tagged(ss, es) && k < |ss| && ss[k].host.Done?
    ensures FINISHED in ss[k].answers
  {
    hide DeviceStep, Base64.Encode;
    var s, e, v := ss[k - 1], es[k - 1], ss[k];
    assert NetStep(c, job, s, e, v);
    if s.host.Done? {
      DoneWasAnswered(c, job, ss, es, k - 1);
    } else {
      assert s.host.Finishing? && e.Read? && s.answers[e.i] == FINISHED;
    }
  }

  // ---- A channel that only loses ----

  datatype Fate = RequestLost | ReplyLost | Delivered

  // One call of the host's send: the request may be lost, its reply may be.
  ghost predicate Exchange(c: Crypto, job: Job, d: Device, h: Host, fate: Fate, r: Reply, d2: Device, h2: Host) {
    && job.Fits() && Talking(job, h)
    && match fate
       case RequestLost => d2 == d && h2 == React(job, h, None)
       case ReplyLost => DeviceStep(c, d, NextRequest(job, h), r, d2) && h2 == React(job, h, None)
       case Delivered => DeviceStep(c, d, NextRequest(job, h), r, d2) && h2 == React(job, h, Some(r))
  }

  // The device is at the host's offset or exactly one chunk further.
  ghost predicate InStep(job: Job, d: Device, h: Host) {
    && HoldsPrefix(job, d)
    && match h
       case Starting => !d.active && d.booted == None
       case Sending(offset, _) =>
         && offset < |job.image|
         && (d.active ==> d.received == offset || d.received == offset + |Slice(job.image, offset)|)
       case Finishing => d.active ==> d.received == |job.image|
       case Done => d.booted == Some(job.image)
       case Failed => true
  }

  lemma MovesOn(job: Job, offset: nat, d: Device)
    requires offset < |job.image| && HoldsPrefix(job, d)
    requires d.active ==> d.received == offset + |Slice(job.image, offset)|
    ensures InStep(job, d, SendFrom(job, offset + |Slice(job.image, offset)|))
  {
  }

  lemma ChunkFitsTheWire(image: seq<u8>, offset: nat)
    requires offset <= |image|
    ensures |Base64.Encode(Slice(image, offset))| < OTA_CHUNK_B64_BUF
  {
    Base64.EncodedLength(Slice(image, offset));
    hide Base64.Encode;
  }

  lemma ExchangeStaysInStep(c: Crypto, job: Job, d: Device, h: Host, fate: Fate, r: Reply, d2: Device, h2: Host)
    requires InStep(job, d, h) && Exchange(c, job, d, h, fate, r, d2, h2)
    ensures InStep(job, d2, h2)
  {
    hide Base64.Encode, Base64.Decode, FinishStep;
    match h {
      case Sending(offset, attempt) =>
        if fate != RequestLost {
          var data := Base64.Encode(Slice(job.image, offset));
          ChunkFitsTheWire(job.image, offset);
          ChunkKeepsPrefix(job, d, offset, data, r, d2);
          SendingStaysInStep(job, d, offset, attempt, fate, r, d2, h2);
        }
      case Starting =>
      case Finishing =>
        if fate != RequestLost {
          DeviceKeepsPrefix(c, job, d, Finish, r, d2);
        }
    }
  }

  lemma SendingStaysInStep(job: Job, d: Device, offset: nat, attempt: nat, fate: Fate, r: Reply, d2: Device, h2: Host)
    requires job.Fits() && InStep(job, d, Sending(offset, attempt)) && HoldsPrefix(job, d2)
    requires ChunkStep(d, offset, Base64.Encode(Slice(job.image, offset)), r, d2)
    requires |Base64.Encode(Slice(job.image, offset))| < OTA_CHUNK_B64_BUF
    requires r == Ok ==> d.active && offset == d.received && d2.received == offset + |Slice(job.image, offset)|
    requires h2 == React(job, Sending(offset, attempt), if fate == Delivered then Some(r) else None)
    ensures InStep(job, d2, h2)
  {
    hide Base64.Encode, Base64.Decode, Slice;
    if fate == Delivered && (r == Ok || AlreadyApplied(r)) {
      MovesOn(job, offset, d2);
    }
  }

  // With losses only, the device is never more than one chunk ahead of the
  // host and never behind it; a host that is done has a device that booted it.
  lemma {:induction false} LossyRun(c: Crypto, job: Job, ds: seq<Device>, hs: seq<Host>, fates: seq<Fate>,
      rs: seq<Reply>, k: nat)
    requires |ds| == |hs| == |fates| + 1 == |rs| + 1 && k < |ds|
    requires hs[0] == Starting && !ds[0].active && ds[0].booted == None
    requires forall i | 0 <= i < |fates| :: Exchange(c, job, ds[i], hs[i], fates[i], rs[i], ds[i + 1], hs[i + 1])
    ensures InStep(job, ds[k], hs[k])
    ensures hs[k].Sending? && ds[k].active ==> hs[k].offset <= ds[k].received <= hs[k].offset + CHUNK_SIZE
    ensures hs[k] == Done ==> ds[k].booted == Some(job.image)
  {
    if k > 0 {
      LossyRun(c, job, ds, hs, fates, rs, k - 1);
      hide InStep, Exchange;
      ExchangeStaysInStep(c, job, ds[k - 1], hs[k - 1], fates[k - 1], rs[k - 1], ds[k], hs[k]);
    }
  }

  // One exchange that gets through both ways always moves the host on, unless
  // the device's flash gave up: whether or not an earlier attempt was applied.
  lemma DeliveredMovesOn(c: Crypto, job: Job, d: Device, offset: nat, attempt: nat, r: Reply, d2: Device, h2: Host)
    requires InStep(job, d, Sending(offset, attempt)) && d.active && d2.active
    requires Exchange(c, job, d, Sending(offset, attempt), Delivered, r, d2, h2)
    ensures h2 == SendFrom(job, offset + |Slice(job.image, offset)|)
  {
    var chunk := Slice(job.image, offset);
    ChunkFitsTheWire(job.image, offset);
    Base64.RoundTrip(chunk);
    Base64.EncodedLength(chunk);
    hide Base64.Encode, Base64.Decode;
  }

  // ---- Why delays matter to the host ----

  // Without that check the host is done and wrong: the device has not booted
  // the image.
  ghost predicate Fooled(job: Job, s: Net) {
    s.host.Done? && s.device.booted != Some(job.image)
  }

  // The device takes the update up at all.
  ghost predicate Startable(c: Crypto, job: Job) {
    c.verify(job.digest, job.signature) && 0 < |job.image| <= OTA_MAX_SIZE
  }

  // The next request, and the next answer, that has not been delivered.
  function NextServed(es: seq<Event>): nat {
    if es == [] then 0
    else
      var e := es[|es| - 1];
      if e.Serve? then e.i + 1 else NextServed(es[..|es| - 1])
  }

  function NextRead(es: seq<Event>): nat {
    if es == [] then 0
    else
      var e := es[|es| - 1];
      if e.Read? then e.i + 1 else NextRead(es[..|es| - 1])
  }

  // A channel like a serial line, that delivers everything at most once and in
  // the order in which it was sent, though it may lose some of it,
  ghost predicate InOrder(es: seq<Event>) {
    forall k | 0 <= k < |es| ::
      && (es[k].Serve? ==> es[k].i >= NextServed(es[..k]))
      && (es[k].Read? ==> es[k].i >= NextRead(es[..k]))
  }

  // and one that does not even lose anything: it is only sometimes late.
  ghost predicate OnlyLate(es: seq<Event>) {
    forall k | 0 <= k < |es| ::
      && (es[k].Serve? ==> es[k].i == NextServed(es[..k]))
      && (es[k].Read? ==> es[k].i == NextRead(es[..k])) && !es[k].Restart?
  }

  lemma OneMoreEvent(c: Crypto, job: Job, ss: seq<Net>, es: seq<Event>, e: Event, v: Net)
    requires NetRun(c, job, ss, es) && NetStep(c, job, ss[|es|], e, v)
    ensures NetRun(c, job, ss + [v], es + [e])
    ensures NextServed(es + [e]) == if e.Serve? then e.i + 1 else NextServed(es)
    ensures NextRead(es + [e]) == if e.Read? then e.i + 1 else NextRead(es)
  {
    hide NetStep, Fresh;
    assert (es + [e])[..|es|] == es;
    var ss2, es2 := ss + [v], es + [e];
    forall k | 0 <= k < |es2|
      ensures NetStep(c, job, ss2[k], es2[k], ss2[k + 1])
    {
      if k < |es| {
        assert ss2[k] == ss[k] && ss2[k + 1] == ss[k + 1] && es2[k] == es[k];
      }
    }
  }

  lemma OnTime(es: seq<Event>, e: Event)
    requires OnlyLate(es) && !e.Restart?
    requires (e.Serve? ==> e.i == NextServed(es)) && (e.Read? ==> e.i == NextRead(es))
    ensures OnlyLate(es + [e])
  {
    var es2 := es + [e];
    forall k | 0 <= k < |es2|
      ensures es2[k].Serve? ==> es2[k].i == NextServed(es2[..k])
      ensures es2[k].Read? ==> es2[k].i == NextRead(es2[..k])
      ensures !es2[k].Restart?
    {
      assert es2[..k] == es[..k];
      if k == |es| {
        assert es[..k] == es;
      }
    }
  }

  // A run under way, with what is needed to go on with it.
  ghost predicate Going(c: Crypto, job: Job, ss: seq<Net>, es: seq<Event>, s: Net, served: nat, read: nat) {
    && NetRun(c, job, ss, es) && OnlyLate(es) && ss[|es|] == s
    && NextServed(es) == served && NextRead(es) == read
  }

  lemma GoOn(c: Crypto, job: Job, ss: seq<Net>, es: seq<Event>, s: Net, served: nat, read: nat, e: Event, v: Net)
    returns (ss2: seq<Net>, es2: seq<Event>)
    requires Going(c, job, ss, es, s, served, read) && NetStep(c, job, s, e, v) && !e.Restart?
    requires (e.Serve? ==> e.i == served) && (e.Read? ==> e.i == read)
    ensures Going(c, job, ss2, es2, v, if e.Serve? then served + 1 else served, if e.Read? then read + 1 else read)
  {
    hide NetStep, NetRun, OnlyLate;
    ss2, es2 := ss + [v], es + [e];
    SameLength(c, job, ss, es);
    OneMoreEvent(c, job, ss, es, e, v);
    OnTime(es, e);
  }

  lemma HostSends(c: Crypto, job: Job, ss: seq<Net>, es: seq<Event>, s: Net, served: nat, read: nat)
    returns (ss2: seq<Net>, es2: seq<Event>, v: Net)
    requires Going(c, job, ss, es, s, served, read) && job.Fits() && !s.awaiting && Talking(job, s.host)
    ensures v == s.(awaiting := true, sent := s.sent + [NextRequest(job, s.host)])
    ensures Going(c, job, ss2, es2, v, served, read)
  {
    hide Going, NextRequest;
    v := s.(awaiting := true, sent := s.sent + [NextRequest(job, s.host)]);
    ss2, es2 := GoOn(c, job, ss, es, s, served, read, Send, v);
  }

  lemma DeviceServes(c: Crypto, job: Job, ss: seq<Net>, es: seq<Event>, s: Net, served: nat, read: nat,
      reply: Reply, d: Device) returns (ss2: seq<Net>, es2: seq<Event>, v: Net)
    requires Going(c, job, ss, es, s, served, read)
    requires served < |s.sent| && DeviceStep(c, s.device, s.sent[served], reply, d)
    ensures v == s.(device := d, answers := s.answers + [Answer(s.sent[served], reply)])
    ensures Going(c, job, ss2, es2, v, served + 1, read)
  {
    hide Going, DeviceStep;
    v := s.(device := d, answers := s.answers + [Answer(s.sent[served], reply)]);
    ss2, es2 := GoOn(c, job, ss, es, s, served, read, Serve(served, reply), v);
  }

  lemma HostReads(c: Crypto, job: Job, ss: seq<Net>, es: seq<Event>, s: Net, served: nat, read: nat)
    returns (ss2: seq<Net>, es2: seq<Event>, v: Net)
    requires Going(c, job, ss, es, s, served, read) && s.awaiting && read < |s.answers|
    ensures v == s.(awaiting := false, host := React(job, s.host, Some(s.answers[read].reply)))
    ensures Going(c, job, ss2, es2, v, served, read + 1)
  {
    hide Going, React;
    v := s.(awaiting := false, host := React(job, s.host, Some(s.answers[read].reply)));
    ss2, es2 := GoOn(c, job, ss, es, s, served, read, Read(read), v);
  }

  lemma HostGivesUp(c: Crypto, job: Job, ss: seq<Net>, es: seq<Event>, s: Net, served: nat, read: nat)
    returns (ss2: seq<Net>, es2: seq<Event>, v: Net)
    requires Going(c, job, ss, es, s, served, read) && s.awaiting
    ensures v == s.(awaiting := false, host := React(job, s.host, None))
    ensures Going(c, job, ss2, es2, v, served, read)
  {
    hide Going, React;
    v := s.(awaiting := false, host := React(job, s.host, None));
    ss2, es2 := GoOn(c, job, ss, es, s, served, read, GiveUp, v);
  }

  lemma SameLength(c: Crypto, job: Job, ss: seq<Net>, es: seq<Event>)
    requires NetRun(c, job, ss, es)
    ensures |ss| == |es| + 1
  {
  }

  // The device in the middle of the transfer.
  function Holding(job: Job, offset: nat): Device
    requires offset <= |job.image| <= OTA_MAX_SIZE
  {
    Device(true, |job.image|, offset, job.signature, job.image[..offset], job.image[..offset], None)
  }

  lemma TakesChunk(c: Crypto, job: Job, offset: nat)
    requires Startable(c, job) && offset < |job.image|
    ensures var chunk := Chunk(offset, Base64.Encode(Slice(job.image, offset)));
            DeviceStep(c, Holding(job, offset), chunk, Ok, Holding(job, offset + |Slice(job.image, offset)|))
  {
    var raw := Slice(job.image, offset);
    ChunkFitsTheWire(job.image, offset);
    Base64.RoundTrip(raw);
    Base64.EncodedLength(raw);
    hide Base64.Encode, Base64.Decode;
  }

  lemma RefusesOldChunk(c: Crypto, job: Job, offset: nat)
    requires Startable(c, job) && offset < |job.image|
    ensures var chunk := Chunk(offset, Base64.Encode(Slice(job.image, offset)));
            var d := Holding(job, offset + |Slice(job.image, offset)|);
            DeviceStep(c, d, chunk, Refused(WrongOffset), d)
  {
    ChunkFitsTheWire(job.image, offset);
    hide Base64.Encode, Base64.Decode;
  }

  // Where the chunk after the one at offset begins.
  function Next(job: Job, offset: nat): nat {
    if offset <= |job.image| then offset + |Slice(job.image, offset)| else offset
  }

  // Every request has been served, and the host has yet to read the last
  // answer: one it will take for the answer to its next chunk.
  ghost predicate OneBehind(job: Job, s: Net, offset: nat, served: nat, read: nat) {
    && offset <= |job.image| <= OTA_MAX_SIZE && s.device == Holding(job, offset)
    && s.host == SendFrom(job, offset) && !s.awaiting && served == |s.sent| && read + 1 == |s.answers|
    && (s.answers[read].reply == Ok || (offset < |job.image| && s.answers[read].reply == Refused(WrongOffset)))
  }

  // A chunk goes out and is taken,
  lemma ChunkTaken(c: Crypto, job: Job, ss: seq<Net>, es: seq<Event>, s: Net, served: nat, read: nat, offset: nat)
    returns (ss2: seq<Net>, es2: seq<Event>, s2: Net, chunk: Request)
    requires Startable(c, job) && Going(c, job, ss, es, s, served, read) && offset < |job.image|
    requires s.device == Holding(job, offset) && s.host == Sending(offset, 1) && !s.awaiting && served == |s.sent|
    ensures Going(c, job, ss2, es2, s2, served + 1, read) && Next(job, offset) <= |job.image|
    ensures s2 == Net(Holding(job, Next(job, offset)), s.host, true, s.sent + [chunk], s.answers + [Answer(chunk, Ok)])
  {
    hide Going, DeviceStep, Base64.Encode, Holding, Slice;
    chunk := NextRequest(job, s.host);
    TakesChunk(c, job, offset);
    ss2, es2, s2 := HostSends(c, job, ss, es, s, served, read);
    ss2, es2, s2 := DeviceServes(c, job, ss2, es2, s2, served, read, Ok, Holding(job, Next(job, offset)));
  }

  // and the host reads the answer to the one before.
  lemma OneRound(c: Crypto, job: Job, ss: seq<Net>, es: seq<Event>, s: Net, served: nat, read: nat, offset: nat)
    returns (ss2: seq<Net>, es2: seq<Event>, s2: Net)
    requires Startable(c, job) && Going(c, job, ss, es, s, served, read)
    requires OneBehind(job, s, offset, served, read) && offset < |job.image|
    ensures Going(c, job, ss2, es2, s2, served + 1, read + 1)
    ensures OneBehind(job, s2, Next(job, offset), served + 1, read + 1)
  {
    hide Going, Holding, Slice;
    var s1, chunk;
    ss2, es2, s1, chunk := ChunkTaken(c, job, ss, es, s, served, read, offset);
    assert s1.answers[read] == s.answers[read];
    ss2, es2, s2 := HostReads(c, job, ss2, es2, s1, served + 1, read);
  }

  // The finish goes out and is refused; the host reads the answer to the last
  // chunk.
  lemma LastRound(c: Crypto, job: Job, ss: seq<Net>, es: seq<Event>, s: Net, served: nat, read: nat)
    returns (ss2: seq<Net>, es2: seq<Event>, s2: Net)
    requires Startable(c, job) && Going(c, job, ss, es, s, served, read)
    requires OneBehind(job, s, |job.image|, served, read)
    ensures Going(c, job, ss2, es2, s2, served + 1, read + 1)
    ensures s2.host.Done? && s2.device.booted == None && |s2.sent| == served + 1
  {
    var d := Holding(job, |job.image|).(active := false);
    var why := if c.Signs(job.signature, job.image[..|job.image|]) then FinishFailed else BadSignature;
    assert DeviceStep(c, s.device, Finish, Refused(why), d);
    hide Going, DeviceStep, Holding, NetStep;
    ss2, es2, s2 := HostSends(c, job, ss, es, s, served, read);
    ss2, es2, s2 := DeviceServes(c, job, ss2, es2, s2, served, read, Refused(why), d);
    assert s2.answers[read] == s.answers[read];
    ss2, es2, s2 := HostReads(c, job, ss2, es2, s2, served + 1, read);
  }

  lemma {:induction false} ToTheEnd(c: Crypto, job: Job, ss: seq<Net>, es: seq<Event>, s: Net, served: nat, read: nat,
      offset: nat) returns (ss2: seq<Net>, es2: seq<Event>, s2: Net, all: nat, last: nat)
    requires Startable(c, job) && Going(c, job, ss, es, s, served, read) && OneBehind(job, s, offset, served, read)
    ensures Going(c, job, ss2, es2, s2, all, last)
    ensures s2.host.Done? && s2.device.booted == None && |s2.sent| == all
    decreases |job.image| - offset
  {
    hide Going;
    if offset < |job.image| {
      var ss1, es1, s1 := OneRound(c, job, ss, es, s, served, read, offset);
      hide OneBehind;
      ss2, es2, s2, all, last :=
        ToTheEnd(c, job, ss1, es1, s1, served + 1, read + 1, Next(job, offset));
    } else {
      ss2, es2, s2 := LastRound(c, job, ss, es, s, served, read);
      all, last := served + 1, read + 1;
    }
  }

  lemma NothingYet(c: Crypto, job: Job, s: Net)
    requires Fresh(s)
    ensures Going(c, job, [s], [], s, 0, 0)
  {
  }

  // The begin is answered in time.
  lemma Opened(c: Crypto, job: Job) returns (ss: seq<Net>, es: seq<Event>, s: Net)
    requires Startable(c, job)
    ensures Going(c, job, ss, es, s, 1, 1)
    ensures s.device == Holding(job, 0) && s.host == Sending(0, 1) && !s.awaiting && |s.sent| == |s.answers| == 1
    ensures s.answers[0].reply == Ok && s.device.booted == None
  {
    var begin := NextRequest(job, Starting);
    var s0 := Net(Device(false, 0, 0, [], [], [], None), Starting, false, [], []);
    NothingYet(c, job, s0);
    assert DeviceStep(c, s0.device, begin, Ok, Holding(job, 0));
    hide Going, DeviceStep, NetStep;
    ss, es, s := HostSends(c, job, [s0], [], s0, 0, 0);
    ss, es, s := DeviceServes(c, job, ss, es, s, 0, 0, Ok, Holding(job, 0));
    ss, es, s := HostReads(c, job, ss, es, s, 1, 0);
  }

  // The first chunk is not answered in time, and sent again;
  lemma SentTwice(c: Crypto, job: Job) returns (ss: seq<Net>, es: seq<Event>, s: Net, chunk: Request)
    requires Startable(c, job)
    ensures Going(c, job, ss, es, s, 1, 1) && chunk == NextRequest(job, Sending(0, 1))
    ensures s.device == Holding(job, 0) && s.host == Sending(0, 2) && s.awaiting && |s.answers| == 1
    ensures |s.sent| == 3 && s.sent[1] == chunk == s.sent[2]
  {
    hide Going, Base64.Encode, Holding, Slice;
    chunk := NextRequest(job, Sending(0, 1));
    ss, es, s := Opened(c, job);
    hide NextRequest;
    ss, es, s := HostSends(c, job, ss, es, s, 1, 1);
    ss, es, s := HostGivesUp(c, job, ss, es, s, 1, 1);
    assert NextRequest(job, s.host) == chunk by {
      SameChunk(job, 1, 2);
    }
    ss, es, s := HostSends(c, job, ss, es, s, 1, 1);
  }

  lemma SameChunk(job: Job, a: nat, b: nat)
    requires job.Fits()
    ensures NextRequest(job, Sending(0, a)) == NextRequest(job, Sending(0, b))
  {
  }

  // then both are answered.
  lemma FallBehind(c: Crypto, job: Job) returns (ss: seq<Net>, es: seq<Event>, s: Net)
    requires Startable(c, job) && CHUNK_SIZE < |job.image|
    ensures Going(c, job, ss, es, s, 3, 2) && OneBehind(job, s, CHUNK_SIZE, 3, 2)
  {
    hide Going, DeviceStep, Base64.Encode, Holding, OneBehind;
    var chunk;
    ss, es, s, chunk := SentTwice(c, job);
    TakesChunk(c, job, 0);
    RefusesOldChunk(c, job, 0);
    hide Slice;
    ss, es, s := TwoAnswers(c, job, ss, es, s, chunk);
  }

  lemma TwoAnswers(c: Crypto, job: Job, ss: seq<Net>, es: seq<Event>, s: Net, chunk: Request)
    returns (ss2: seq<Net>, es2: seq<Event>, s2: Net)
    requires Going(c, job, ss, es, s, 1, 1) && CHUNK_SIZE < |job.image| <= OTA_MAX_SIZE
    requires s.device == Holding(job, 0) && s.host == Sending(0, 2) && s.awaiting && |s.sent| == 3 && |s.answers| == 1
    requires s.sent[1] == chunk == s.sent[2]
    requires DeviceStep(c, Holding(job, 0), chunk, Ok, Holding(job, CHUNK_SIZE))
    requires DeviceStep(c, Holding(job, CHUNK_SIZE), chunk, Refused(WrongOffset), Holding(job, CHUNK_SIZE))
    ensures Going(c, job, ss2, es2, s2, 3, 2) && OneBehind(job, s2, CHUNK_SIZE, 3, 2)
  {
    hide Going, DeviceStep, Holding, NetStep;
    ss2, es2, s2 := DeviceServes(c, job, ss, es, s, 1, 1, Ok, Holding(job, CHUNK_SIZE));
    ss2, es2, s2 := DeviceServes(c, job, ss2, es2, s2, 2, 1, Refused(WrongOffset), Holding(job, CHUNK_SIZE));
    assert s2.answers[1].reply == Ok;
    ss2, es2, s2 := HostReads(c, job, ss2, es2, s2, 3, 1);
  }

  // For any image of two chunks or more: one reply is late, nothing is lost or
  // repeated or out of order, every request has been served; the device has
  // refused the finish, and the host reports success.
  lemma LateReplyFoolsTheHost(c: Crypto, job: Job) returns (ss: seq<Net>, es: seq<Event>)
    requires Startable(c, job) && CHUNK_SIZE < |job.image|
    ensures NetRun(c, job, ss, es) && OnlyLate(es)
    ensures var s := ss[|es|];
            s.host.Done? && s.device.booted == None && NextServed(es) == |s.sent|
  {
    var s;
    ss, es, s := FallBehind(c, job);
    hide NetRun, OnlyLate;
    var all, last;
    ss, es, s, all, last := ToTheEnd(c, job, ss, es, s, 3, 2, CHUNK_SIZE);
    SameLength(c, job, ss, es);
  }

  // ---- Exactly when that can happen ----

  // What an answer to a begin says, and that nothing else is asked before one.
  ghost predicate Begun(c: Crypto, job: Job, s: Net) {
    && (forall a | a in s.answers && a.about.Begin? && a.reply == Ok :: Startable(c, job))
    && (s.host.Starting? ==> (forall req | req in s.sent :: req.Begin?) && forall a | a in s.answers :: a.about.Begin?)
    && (s.host.Sending? || s.host.Finishing? || s.host.Done? ==> Startable(c, job))
  }

  lemma BeginAnswered(c: Crypto, job: Job, d: Device, req: Request, v: Device)
    requires FromJob(job, req) && req.Begin? && DeviceStep(c, d, req, Ok, v)
    ensures Startable(c, job)
  {
  }

  lemma {:induction false} GoingMeansStartable(c: Crypto, job: Job, ss: seq<Net>, es: seq<Event>, k: nat)
    requires NetRun(c, job, ss, es) && k < |ss|
    ensures Begun(c, job, ss[k])
  {
    if k > 0 {
      GoingMeansStartable(c, job, ss, es, k - 1);
      PrefixUnderDelay(c, job, ss, es, k - 1);
      var s, e, v := ss[k - 1], es[k - 1], ss[k];
      assert NetStep(c, job, s, e, v);
      hide NetRun, DeviceStep, Startable, Base64.Encode, HoldsPrefix;
      if e.Serve? && s.sent[e.i].Begin? && e.reply == Ok {
        BeginAnswered(c, job, s.device, s.sent[e.i], v.device);
      }
    }
  }

  predicate Acceptable(r: Reply) {
    r == Ok || AlreadyApplied(r)
  }

  // An image of one chunk over a channel that keeps the order. There is one
  // begin, the first thing sent and the first answered;
  ghost predicate OneChunkWire(s: Net, served: nat, read: nat) {
    && (forall j | 0 <= j < |s.sent| :: (s.sent[j].Begin? <==> j == 0) && (s.sent[j].Chunk? ==> s.sent[j].offset == 0))
    && (forall j | 0 <= j < |s.answers| :: s.answers[j].about.Begin? <==> j == 0)
    && (s.answers != [] ==> served >= 1) && (|s.sent| > 1 ==> s.answers != [])
    && served <= |s.sent| && read <= |s.answers|
    && (s.host.Starting? ==> |s.sent| == if s.awaiting then 1 else 0)
    && (s.host.Sending? ==> s.host.offset == 0 && read >= 1)
  }

  // after an answer that takes the host to the finish the device has the image
  // or nothing, so it does not take a chunk again;
  ghost predicate OneChunkDevice(job: Job, s: Net) {
    && (s.device.active ==> s.device.received == 0 || s.device.received == |job.image|)
    && (forall j | 1 <= j < |s.answers| && Acceptable(s.answers[j].reply) ::
          s.device.active ==> s.device.received == |job.image|)
    && (forall i, j | 1 <= i < j < |s.answers| && Acceptable(s.answers[i].reply) && s.answers[j].reply == Ok ::
          s.answers[j].about.Finish?)
  }

  // and the host is past such an answer when it waits for the outcome.
  ghost predicate OneChunkHost(s: Net, read: nat) {
    && (s.host.Finishing? ==> exists i | 1 <= i < read && i < |s.answers| :: Acceptable(s.answers[i].reply))
    && (s.host.Done? ==> FINISHED in s.answers)
  }

  ghost predicate OneChunk(job: Job, s: Net, served: nat, read: nat) {
    OneChunkWire(s, served, read) && OneChunkDevice(job, s) && OneChunkHost(s, read)
  }

  // The device's side of one chunk.
  lemma ServeOneChunk(c: Crypto, job: Job, d: Device, req: Request, r: Reply, v: Device)
    requires 0 < |job.image| <= CHUNK_SIZE && HoldsPrefix(job, d) && FromJob(job, req) && DeviceStep(c, d, req, r, v)
    requires (req.Chunk? ==> req.offset == 0) && (d.active ==> d.received == 0 || d.received == |job.image|)
    ensures v.active ==> v.received == 0 || v.received == |job.image|
    ensures !req.Begin? && Acceptable(r) ==> (v.active ==> v.received == |job.image|)
    ensures !req.Begin? && (d.active ==> d.received == |job.image|) ==> (v.active ==> v.received == |job.image|)
    ensures req.Chunk? && r == Ok ==> d.active && d.received == 0
  {
    if req.Chunk? {
      ChunkFitsTheWire(job.image, 0);
      ChunkKeepsPrefix(job, d, req.offset, req.data, r, v);
    }
    hide Base64.Encode, Base64.Decode;
  }

  lemma ServeKeepsOneChunk(c: Crypto, job: Job, s: Net, e: Event, v: Net, served: nat, read: nat)
    requires 0 < |job.image| <= CHUNK_SIZE && HoldsPrefix(job, s.device) && AllFromJob(job, s)
    requires NetStep(c, job, s, e, v) && e.Serve? && e.i >= served && OneChunk(job, s, served, read)
    ensures OneChunk(job, v, e.i + 1, read)
  {
    var req := s.sent[e.i];
    assert s.answers == [] ==> e.i == 0;
    ServeOneChunk(c, job, s.device, req, e.reply, v.device);
    hide DeviceStep, HoldsPrefix, FromJob;
    if s.answers != [] && req.Chunk? && e.reply == Ok {
      assert forall i | 1 <= i < |s.answers| :: !Acceptable(s.answers[i].reply);
    }
    assert OneChunkWire(v, e.i + 1, read) && OneChunkDevice(job, v);
    if s.host.Finishing? {
      var i :| 1 <= i < read && i < |s.answers| && Acceptable(s.answers[i].reply);
      assert v.answers[i] == s.answers[i];
    }
  }

  lemma ReadKeepsOneChunk(c: Crypto, job: Job, s: Net, e: Event, v: Net, served: nat, read: nat)
    requires 0 < |job.image| <= CHUNK_SIZE
    requires NetStep(c, job, s, e, v) && e.Read? && e.i >= read && OneChunk(job, s, served, read)
    ensures OneChunk(job, v, served, e.i + 1)
  {
    if s.host.Sending? && v.host.Finishing? {
      assert 1 <= e.i < |v.answers| && Acceptable(v.answers[e.i].reply);
    }
    if s.host.Finishing? && v.host.Done? {
      assert s.answers[e.i] == FINISHED;
    }
  }

  lemma OtherKeepsOneChunk(c: Crypto, job: Job, s: Net, e: Event, v: Net, served: nat, read: nat)
    requires 0 < |job.image| <= CHUNK_SIZE
    requires NetStep(c, job, s, e, v) && !e.Serve? && !e.Read? && OneChunk(job, s, served, read)
    ensures OneChunk(job, v, served, read)
  {
    hide Base64.Encode;
  }

  lemma {:induction false} OneChunkInOrder(c: Crypto, job: Job, ss: seq<Net>, es: seq<Event>, k: nat)
    requires NetRun(c, job, ss, es) && InOrder(es) && k < |ss| && 0 < |job.image| <= CHUNK_SIZE
    ensures OneChunk(job, ss[k], NextServed(es[..k]), NextRead(es[..k]))
  {
    if k > 0 {
      OneChunkInOrder(c, job, ss, es, k - 1);
      PrefixUnderDelay(c, job, ss, es, k - 1);
      var s, e, v := ss[k - 1], es[k - 1], ss[k];
      assert NetStep(c, job, s, e, v);
      assert es[..k][..k - 1] == es[..k - 1];
      assert (e.Serve? ==> e.i >= NextServed(es[..k - 1])) && (e.Read? ==> e.i >= NextRead(es[..k - 1]));
      hide NetRun, InOrder, NetStep, OneChunk, HoldsPrefix, AllFromJob;
      if e.Serve? {
        ServeKeepsOneChunk(c, job, s, e, v, NextServed(es[..k - 1]), NextRead(es[..k - 1]));
      } else if e.Read? {
        ReadKeepsOneChunk(c, job, s, e, v, NextServed(es[..k - 1]), NextRead(es[..k - 1]));
      } else {
        OtherKeepsOneChunk(c, job, s, e, v, NextServed(es[..k - 1]), NextRead(es[..k - 1]));
      }
    }
  }

  lemma LateIsInOrder(es: seq<Event>)
    requires OnlyLate(es)
    ensures InOrder(es)
  {
  }

  // Over a channel that keeps the order the host can be wrong about a finished
  // transfer if and only if the image takes more than one chunk (and is one
  // that the device takes up at all).
  lemma FooledInOrderIff(c: Crypto, job: Job)
    ensures (exists ss, es :: NetRun(c, job, ss, es) && InOrder(es) && Fooled(job, ss[|es|]))
            <==> Startable(c, job) && CHUNK_SIZE < |job.image|
  {
    if Startable(c, job) && CHUNK_SIZE < |job.image| {
      var ss, es := LateReplyFoolsTheHost(c, job);
      hide NetRun, OnlyLate, InOrder;
      LateIsInOrder(es);
      SameLength(c, job, ss, es);
      assert Fooled(job, ss[|es|]);
    }
    forall ss, es | NetRun(c, job, ss, es) && InOrder(es) && Fooled(job, ss[|es|])
      ensures Startable(c, job) && CHUNK_SIZE < |job.image|
    {
      NotFooledByOneChunk(c, job, ss, es);
    }
  }

  lemma NotFooledByOneChunk(c: Crypto, job: Job, ss: seq<Net>, es: seq<Event>)
    requires NetRun(c, job, ss, es) && InOrder(es) && Fooled(job, ss[|es|])
    ensures Startable(c, job) && CHUNK_SIZE < |job.image|
  {
    GoingMeansStartable(c, job, ss, es, |es|);
    BootedIffAnswered(c, job, ss, es, |es|);
    if |job.image| <= CHUNK_SIZE {
      OneChunkInOrder(c, job, ss, es, |es|);
    }
  }

  // Over one that repeats as well, a single chunk is enough.
  lemma FooledIff(c: Crypto, job: Job)
    ensures (exists ss, es :: NetRun(c, job, ss, es) && Fooled(job, ss[|es|])) <==> Startable(c, job)
  {
    if Startable(c, job) {
      var ss, es := StaleReplyFoolsTheHost(c, job);
      hide NetRun;
      SameLength(c, job, ss, es);
      assert Fooled(job, ss[|es|]);
    }
    forall ss, es | NetRun(c, job, ss, es) && Fooled(job, ss[|es|])
      ensures Startable(c, job)
    {
      GoingMeansStartable(c, job, ss, es, |es|);
    }
  }

  // The ok to the begin, read again and again.
  lemma StaleReplyFoolsTheHost(c: Crypto, job: Job) returns (ss: seq<Net>, es: seq<Event>)
    requires Startable(c, job)
    ensures NetRun(c, job, ss, es) && Fooled(job, ss[|es|])
  {
    var s;
    ss, es, s := Opened(c, job);
    hide DeviceStep, NetStep, NetRun, OnlyLate, Holding, Fooled;
    ss, es := ReadAgain(c, job, ss, es, s, 0);
  }

  lemma {:induction false} ReadAgain(c: Crypto, job: Job, ss: seq<Net>, es: seq<Event>, s: Net, offset: nat)
    returns (ss2: seq<Net>, es2: seq<Event>)
    requires NetRun(c, job, ss, es) && ss[|es|] == s && job.Fits() && offset <= |job.image|
    requires s.answers != [] && s.answers[0].reply == Ok && s.device.booted == None && !s.awaiting
    requires s.host == SendFrom(job, offset)
    ensures NetRun(c, job, ss2, es2) && Fooled(job, ss2[|es2|])
    decreases |job.image| - offset
  {
    hide NetRun, Base64.Encode;
    SameLength(c, job, ss, es);
    var s1 := s.(awaiting := true, sent := s.sent + [NextRequest(job, s.host)]);
    OneMoreEvent(c, job, ss, es, Send, s1);
    var v := s1.(awaiting := false, host := React(job, s.host, Some(Ok)));
    assert NetStep(c, job, s1, Read(0), v);
    OneMoreEvent(c, job, ss + [s1], es + [Send], Read(0), v);
    ss2, es2 := ss + [s1] + [v], es + [Send] + [Read(0)];
    if offset < |job.image| {
      ss2, es2 := ReadAgain(c, job, ss2, es2, v, offset + |Slice(job.image, offset)|);
    }
  }
}
