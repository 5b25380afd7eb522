/** The state machine of the bootloader: find an image, check its signature, start it. */
module Bootloader {
  import opened Bytes
  import opened TinyElf
  import opened Chainloader
  import opened ImageScan

  datatype BlState = Init | FindApp | Boot | AllFailed | CheckSignature

  const KEY_SIZE := 32

  /** The build-time configuration, with the public key as base64 decoding yields it. */
  datatype Config = Config(start: uint32, size: uint32, step: uint32, key: seq<byte>)

  /** The fields of the application. */
  datatype State = State(state: BlState, membuf: uint32, header: Header)

  const STARTED := State(Init, NULL, NO_HEADER)

  function Found(g: Config, mem: Memory): Scan {
    Scanned(mem, g.start, g.size, g.step, 0)
  }

  /** The offsets of the scan reach the size, or one of them has an ELF header. */
  ghost predicate Ends(g: Config, mem: Memory) {
    g.size + Stride(g.step) <= U32 || !NoElfReached(mem, g.start, g.step)
  }

  /** That is when the scan comes to an end. */
  lemma EndsExactly(g: Config, mem: Memory)
    ensures Ends(g, mem) <==> Found(g, mem) != Endless
  {
    EndlessExactly(mem, g.start, g.size, g.step);
  }

  function ImageAddress(g: Config, k: nat): uint32 {
    (g.start + Offset(g.step, k)) % U32
  }

  function HeaderAt(mem: Memory, base: uint32): Header {
    match Parsed(ReaderAt(mem, base))
    case Some(h) => h
    case None => NO_HEADER
  }

  /** One step, and what booting did if the step called it; a scan without end leaves FIND_APP never. */
  function Stepped(g: Config, mem: Memory, crypto: Crypto, s: State): (State, Option<BootResult>)
  {
    match s.state
    case Init => (s.(state := FindApp), None)
    case FindApp =>
      (match Found(g, mem)
       case ElfFound(k) => (State(CheckSignature, ImageAddress(g, k), HeaderAt(mem, ImageAddress(g, k))), None)
       case NothingFound => (State(AllFailed, NULL, if g.size == 0 then NO_HEADER else NOT_ELF), None)
       case Endless => (s, None))
    case CheckSignature =>
      if |g.key| == KEY_SIZE && Signed(mem, crypto, s.membuf, s.header, g.key) then (s.(state := Boot), None)
      else (s.(state := AllFailed), None)
    case Boot =>
      var r := Booted(mem, s.membuf, s.header);
      (if r.BootFailed? then s.(state := AllFailed) else s, Some(r))
    case AllFailed => (s, None)
  }

  class App {
    const config: Config
    const mem: Memory
    const crypto: Crypto
    const chainloader: ChainLoader
    var state: BlState

    constructor (config: Config, mem: Memory, crypto: Crypto)
      ensures this.config == config && this.mem == mem && this.crypto == crypto
      ensures Valid() && fresh(chainloader) && fresh(chainloader.elf)
      ensures Snapshot() == STARTED
    {
      this.config := config;
      this.mem := mem;
      this.crypto := crypto;
      state := Init;
      chainloader := new ChainLoader(mem, crypto);
    }

    ghost predicate Valid()
      reads this, chainloader, chainloader.elf
    {
      && chainloader.mem == mem && chainloader.crypto == crypto
      && (state in {CheckSignature, Boot} ==> chainloader.Loaded())
    }

    ghost function Snapshot(): State
      reads this, chainloader, chainloader.elf
    {
      State(state, chainloader.membuf, chainloader.elf.header)
    }

    method Step() returns (boot: Option<BootResult>)
      requires Valid() && (state == FindApp ==> Ends(config, mem))
      modifies this`state, chainloader, chainloader.elf
      ensures Valid()
      ensures (Snapshot(), boot) == Stepped(config, mem, crypto, old(Snapshot()))
    {
      hide Signed;
      hide Parsed;
      hide Booted;
      hide Scanned;
      hide Ends;
      EndsExactly(config, mem);
      boot := None;
      match state
      case FindApp =>
        chainloader.Init();
        var ok := chainloader.FindElf(config.start, config.size, config.step);
        if ok {
          state := CheckSignature;
        } else {
          state := AllFailed;
        }
      case Boot =>
        var r := chainloader.Boot();
        boot := Some(r);
        if r.BootFailed? {
          state := AllFailed;
        }
      case AllFailed =>
      case CheckSignature =>
        if |config.key| != KEY_SIZE {
          state := AllFailed;
        } else {
          var ok := chainloader.CheckSignature(config.key);
          if ok {
            state := Boot;
          } else {
            state := AllFailed;
          }
        }
      case Init =>
        state := FindApp;
    }
  }

  // ----- Runs -----

  /** The bootloader goes on for good, or until the application it jumps to takes over. */
  datatype Machine = Running(s: State) | Application(entry: uint32, stack: uint32, vectors: uint32)

  function Next(g: Config, mem: Memory, crypto: Crypto, m: Machine): Machine
  {
    match m
    case Application(_, _, _) => m
    case Running(s) =>
      var (s', boot) := Stepped(g, mem, crypto, s);
      match boot
      case Some(Jumped(entry, stack, vectors)) => Application(entry, stack, vectors)
      case _ => Running(s')
  }

  /** The machine after n steps from the start. */
  function After(g: Config, mem: Memory, crypto: Crypto, n: nat): Machine
  {
    if n == 0 then Running(STARTED) else Next(g, mem, crypto, After(g, mem, crypto, n - 1))
  }

  /** What the image must have passed before it is started. */
  predicate Verified(g: Config, mem: Memory, crypto: Crypto, s: State)
  {
    && Found(g, mem).ElfFound?
    && s.membuf == ImageAddress(g, Found(g, mem).k)
    && Parsed(ReaderAt(mem, s.membuf)) == Some(s.header)
    && |g.key| == KEY_SIZE
    && Signed(mem, crypto, s.membuf, s.header, g.key)
  }

  /** There is an image, and the first one in the scan carries a valid signature. */
  predicate Accepted(g: Config, mem: Memory, crypto: Crypto)
  {
    match Found(g, mem)
    case ElfFound(k) =>
      |g.key| == KEY_SIZE && Signed(mem, crypto, ImageAddress(g, k), HeaderAt(mem, ImageAddress(g, k)), g.key)
    case _ => false
  }

  /** What booting the first image in the scan does. */
  function FirstBooted(g: Config, mem: Memory): BootResult
  {
    match Found(g, mem)
    case ElfFound(k) => Booted(mem, ImageAddress(g, k), HeaderAt(mem, ImageAddress(g, k)))
    case _ => BootFailed
  }

  ghost predicate Sound(g: Config, mem: Memory, crypto: Crypto, s: State)
  {
    match s.state
    case Boot => Verified(g, mem, crypto, s)
    case CheckSignature =>
      && Found(g, mem).ElfFound? && s.membuf == ImageAddress(g, Found(g, mem).k)
      && Parsed(ReaderAt(mem, s.membuf)) == Some(s.header)
    case _ => true
  }

  lemma FoundIsElf(g: Config, mem: Memory)
    requires Found(g, mem).ElfFound?
    ensures Parsed(ReaderAt(mem, ImageAddress(g, Found(g, mem).k))).Some?
  {
    hide Parsed;
    hide Scanned;
    hide Offset;
    hide GoesOn;
    ScanIsFirst(mem, g.start, g.size, g.step, 0);
  }

  lemma StepKeepsSound(g: Config, mem: Memory, crypto: Crypto, s: State)
    requires Sound(g, mem, crypto, s)
    ensures Sound(g, mem, crypto, Stepped(g, mem, crypto, s).0)
  {
    hide Parsed;
    hide Signed;
    hide Booted;
    if s.state == FindApp && Found(g, mem).ElfFound? {
      FoundIsElf(g, mem);
    }
  }

  /**
   * In every run, booting is called only on the first image of the scan, and only once the check of
   * its signature with a key of the right size has succeeded; and an application that runs is that
   * image.
   */
  lemma {:induction false} OnlyVerifiedBoots(g: Config, mem: Memory, crypto: Crypto, n: nat)
    ensures match After(g, mem, crypto, n)
            case Running(s) =>
              Sound(g, mem, crypto, s) && (Stepped(g, mem, crypto, s).1.Some? ==> Verified(g, mem, crypto, s))
            case Application(entry, stack, vectors) =>
              Accepted(g, mem, crypto) && FirstBooted(g, mem) == Jumped(entry, stack, vectors)
  {
    hide Parsed;
    hide Signed;
    hide Booted;
    hide Scanned;
    if n == 0 {
    } else {
      OnlyVerifiedBoots(g, mem, crypto, n - 1);
      if After(g, mem, crypto, n - 1).Running? {
        StepKeepsSound(g, mem, crypto, After(g, mem, crypto, n - 1).s);
      }
    }
  }

  ghost predicate Final(g: Config, mem: Memory, m: Machine) {
    m.Application? || m.s.state == AllFailed || (m.s.state == FindApp && !Ends(g, mem))
  }

  /** Once the application runs, everything has failed or the scan does not end, nothing else happens. */
  lemma {:induction false} FinalForGood(g: Config, mem: Memory, crypto: Crypto, n: nat, m: nat)
    requires n <= m && Final(g, mem, After(g, mem, crypto, n))
    ensures After(g, mem, crypto, m) == After(g, mem, crypto, n)
  {
    hide Ends;
    hide Scanned;
    EndsExactly(g, mem);
    if n >= m {
    } else {
      FinalForGood(g, mem, crypto, n, m - 1);
    }
  }

  lemma FirstSteps(g: Config, mem: Memory, crypto: Crypto)
    ensures After(g, mem, crypto, 1) == Running(STARTED.(state := FindApp))
    ensures After(g, mem, crypto, 2).Running? && After(g, mem, crypto, 3).Running?
    ensures After(g, mem, crypto, 3).s.state
            == if Accepted(g, mem, crypto) then Boot else if Ends(g, mem) then AllFailed else FindApp
    ensures Accepted(g, mem, crypto) ==>
              var a := ImageAddress(g, Found(g, mem).k);
              After(g, mem, crypto, 3).s == State(Boot, a, HeaderAt(mem, a))
  {
    hide Parsed;
    hide Signed;
    hide Booted;
    hide Scanned;
    hide Ends;
    EndsExactly(g, mem);
    assert After(g, mem, crypto, 0) == Running(STARTED);
    var s2 := After(g, mem, crypto, 2);
    assert s2 == Next(g, mem, crypto, After(g, mem, crypto, 1));
    assert After(g, mem, crypto, 3) == Next(g, mem, crypto, s2);
  }

  /**
   * From the fourth step on, the application runs exactly when the first image of the scan carries a
   * valid signature and has a vector table; otherwise everything has failed, unless the scan does
   * not end. Before, the application never runs.
   */
  lemma BootsExactlyWhenAccepted(g: Config, mem: Memory, crypto: Crypto, n: nat)
    ensures n <= 3 ==> After(g, mem, crypto, n).Running?
    ensures n > 3 ==>
              After(g, mem, crypto, n).Application? == (Accepted(g, mem, crypto) && FirstBooted(g, mem).Jumped?)
    ensures n > 3 && !After(g, mem, crypto, n).Application? ==>
              After(g, mem, crypto, n).s.state == if Ends(g, mem) then AllFailed else FindApp
  {
    hide Parsed;
    hide Signed;
    hide Booted;
    hide Scanned;
    hide HeaderAt;
    hide Ends;
    EndsExactly(g, mem);
    FirstSteps(g, mem, crypto);
    assert After(g, mem, crypto, 0) == Running(STARTED);
    var m3 := After(g, mem, crypto, 3);
    assert After(g, mem, crypto, 4) == Next(g, mem, crypto, m3);
    if n > 3 {
      FinalForGood(g, mem, crypto, 4, n);
    }
  }

  /**
   * With blank memory the bootloader stays in FIND_APP for good, from the second step on, exactly when
   * the offsets of the scan do not reach the size; otherwise it says that everything has failed.
   */
  lemma BlankMemory(g: Config, crypto: Crypto, n: nat)
    requires n > 1
    ensures After(g, Blank(), crypto, n).Running?
    ensures After(g, Blank(), crypto, n).s.state == if g.size + Stride(g.step) > U32 then FindApp else AllFailed
  {
    hide Parsed;
    hide Signed;
    hide Booted;
    hide Scanned;
    hide Ends;
    hide Stride;
    hide Blank;
    BlankScan(g.start, g.size, g.step);
    EndsExactly(g, Blank());
    FirstSteps(g, Blank(), crypto);
    assert After(g, Blank(), crypto, 2) == Next(g, Blank(), crypto, After(g, Blank(), crypto, 1));
    FinalForGood(g, Blank(), crypto, 2, n);
  }
}
