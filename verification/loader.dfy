/** Loading a user program into an address space: choosing the program
    path, re-entering for shell scripts and `#!` files, mapping ELF load
    segments page by page, loading the dynamic linker first when there is
    one, and laying out the stack and heap. Page tables, the file system,
    ELF parsing and the stack image builder are collaborators, given as the
    fields of an `Env`. */
module Loader {
  import opened Ints
  import opened Errors
  import opened Utf8
  import opened Shebang

  const PAGE_SIZE_4K: nat := 4096

  /** The configured user address-space layout (`USER_STACK_TOP`,
      `USER_STACK_SIZE`, `USER_HEAP_BASE`, `USER_HEAP_SIZE`,
      `USER_INTERP_BASE`). */
  datatype UserLayout = UserLayout(stackTop: nat, stackSize: nat, heapBase: nat, heapSize: nat,
                                   interpBase: nat)

  datatype Perm = Perm(read: bool, write: bool, execute: bool, user: bool)

  /** Read, write, user: the stack and the heap. */
  const USER_RW: Perm := Perm(true, true, false, true)

  /** A PT_LOAD segment as the ELF parser reports it: `vaddr` already has
      the load base added. */
  datatype Segment = Segment(vaddr: nat, memsz: nat, offset: nat, filesz: nat, flags: Perm)

  /** What the ELF parser yields for one image at one base. */
  datatype ElfParser = ElfParser(entry: nat, base: nat, segments: seq<Segment>)

  /** The contents of the first PT_INTERP header: raw bytes, or anything
      else the header reader may return. */
  datatype InterpData = Undefined(bytes: seq<u8>) | OtherData

  /** A parsed ELF file: its bytes and its first PT_INTERP header, if any. */
  datatype ElfFile = ElfFile(input: seq<u8>, interp: Option<InterpData>)

  /** An operation on the user address space. */
  datatype Op = MapAlloc(start: nat, size: nat, flags: Perm) | Write(addr: nat, data: seq<u8>)

  /** The user address space: its base and the operations applied to it. */
  datatype AddrSpace = AddrSpace(base: nat, log: seq<Op>)

  /** The collaborators: the file system, the ELF header reader
      (`ElfFile::new`, None when the bytes are not an ELF image), the load
      parser (`ELFParser::new`), the builder of the initial stack image
      (`aux_vector` and `app_stack_region`), and the address-space
      operations, which fail with the error `refuse` names. */
  datatype Env = Env(
    readFile: string -> Result<seq<u8>>,
    elfInterp: seq<u8> -> Option<Option<InterpData>>,
    elfParser: (ElfFile, nat) -> Option<ElfParser>,
    stackImage: (ElfParser, Option<nat>, seq<string>, seq<string>, nat, nat) -> seq<u8>,
    refuse: (seq<Op>, Op) -> Option<Errno>)

  datatype Status<+T> = Done(value: T) | Failed(error: Errno) | Panicked | OutOfFuel

  /** The address space afterwards (changes made before a failure stay)
      and how the step ended. */
  datatype Outcome<+T> = Outcome(space: AddrSpace, status: Status<T>)

  /** One address-space operation: recorded when it succeeds. */
  function Apply(env: Env, sp: AddrSpace, op: Op): (r: Result<AddrSpace>)
    ensures r.Err? <==> env.refuse(sp.log, op).Some?
    ensures r.Err? ==> r.error == env.refuse(sp.log, op).value
    ensures r.Ok? ==> r.value == AddrSpace(sp.base, sp.log + [op])
  {
    match env.refuse(sp.log, op)
    case Some(e) => Err(e)
    case None => Ok(sp.(log := sp.log + [op]))
  }

  // -----------------------------------------------------------------------
  // map_elf

  /** The page-aligned region that backs a segment: it starts at
      `align_down_4k(vaddr)` and its size is `memsz + pad` rounded up to a
      whole number of pages, where `pad = vaddr mod 4096`. */
  function SegmentRegion(seg: Segment): (region: (nat, nat))
    ensures region.0 % PAGE_SIZE_4K == 0 && region.1 % PAGE_SIZE_4K == 0
    ensures region.0 <= seg.vaddr < region.0 + PAGE_SIZE_4K
    ensures seg.vaddr + seg.memsz <= region.0 + region.1
    ensures region.1 < seg.memsz + (seg.vaddr - region.0) + PAGE_SIZE_4K
  {
    var pad := seg.vaddr % PAGE_SIZE_4K;
    (seg.vaddr - pad, (seg.memsz + pad + PAGE_SIZE_4K - 1) / PAGE_SIZE_4K * PAGE_SIZE_4K)
  }

  /** The loader's precondition on a segment, asserted at run time: the
      virtual address and the file offset agree modulo the page size. */
  predicate Congruent(seg: Segment)
  {
    seg.vaddr % PAGE_SIZE_4K == seg.offset % PAGE_SIZE_4K
  }

  predicate SliceInFile(seg: Segment, input: seq<u8>)
  {
    seg.offset + seg.filesz <= |input|
  }

  /** The loop of `map_elf`: per segment, assert congruence (a panic
      otherwise), allocate the region, take the file slice (InvalidData
      when it runs past the file) and copy it to `vaddr`. */
  function MapSegments(env: Env, sp: AddrSpace, input: seq<u8>, segs: seq<Segment>): (r: Outcome<()>)
    ensures r.space.base == sp.base
    ensures r.status.Done? || r.status.Failed? || r.status.Panicked?
    decreases |segs|
  {
    if segs == [] then Outcome(sp, Done(()))
    else
      var seg := segs[0];
      if !Congruent(seg) then Outcome(sp, Panicked)
      else
        var region := SegmentRegion(seg);
        match Apply(env, sp, MapAlloc(region.0, region.1, seg.flags))
        case Err(e) => Outcome(sp, Failed(e))
        case Ok(sp1) =>
          if !SliceInFile(seg, input) then Outcome(sp1, Failed(InvalidData))
          else
            match Apply(env, sp1, Write(seg.vaddr, input[seg.offset..seg.offset + seg.filesz]))
            case Err(e) => Outcome(sp1, Failed(e))
            case Ok(sp2) => MapSegments(env, sp2, input, segs[1..])
  }

  /** `map_elf`: parse at `base` (InvalidData when the parser refuses) and
      map every load segment. */
  function MapElf(env: Env, sp: AddrSpace, base: nat, elf: ElfFile): (r: Outcome<ElfParser>)
    ensures r.space.base == sp.base
    ensures env.elfParser(elf, base).None? ==> r == Outcome(sp, Failed(InvalidData))
    ensures r.status.Done? ==> Some(r.status.value) == env.elfParser(elf, base)
    ensures !r.status.OutOfFuel?
  {
    match env.elfParser(elf, base)
    case None => Outcome(sp, Failed(InvalidData))
    case Some(parser) =>
      var m := MapSegments(env, sp, elf.input, parser.segments);
      if m.status.Done? then Outcome(m.space, Done(parser))
      else if m.status.Failed? then Outcome(m.space, Failed(m.status.error))
      else Outcome(m.space, Panicked)
  }

  /** The operations mapping the segments performs when nothing fails. */
  function SegmentOps(input: seq<u8>, segs: seq<Segment>): seq<Op>
    requires forall i :: 0 <= i < |segs| ==> SliceInFile(segs[i], input)
  {
    if segs == [] then []
    else
      var seg := segs[0];
      assert SliceInFile(seg, input);
      var region := SegmentRegion(seg);
      [MapAlloc(region.0, region.1, seg.flags), Write(seg.vaddr, input[seg.offset..seg.offset + seg.filesz])]
        + SegmentOps(input, segs[1..])
  }

  /** Nothing is refused from the log `log` onwards for the operations `ops`. */
  ghost predicate Accepts(env: Env, log: seq<Op>, ops: seq<Op>)
  {
    forall i :: 0 <= i < |ops| ==> env.refuse(log + ops[..i], ops[i]).None?
  }

  /** Mapping succeeds exactly when every segment is congruent, every file
      slice lies inside the file, and the address space accepts every
      operation; it then appends the allocation and the copy of each
      segment, in order, and nothing else. */
  lemma {:induction false} MapSegmentsSucceeds(env: Env, sp: AddrSpace, input: seq<u8>, segs: seq<Segment>)
    ensures MapSegmentsSpec(env, sp, input, segs)
    decreases |segs|
  {
    if segs != [] {
      var seg := segs[0];
      if !(Congruent(seg) && SliceInFile(seg, input)) {
        SegmentsFirstBad(env, sp, input, segs);
      } else {
        var region := SegmentRegion(seg);
        var a := MapAlloc(region.0, region.1, seg.flags);
        var w := Write(seg.vaddr, input[seg.offset..seg.offset + seg.filesz]);
        MapSegmentsSucceeds(env, AddrSpace(sp.base, sp.log + [a, w]), input, segs[1..]);
        MapSegmentsStep(env, sp, input, segs, a, w);
      }
    }
  }

  /** The statement of `MapSegmentsSucceeds`. */
  ghost predicate MapSegmentsSpec(env: Env, sp: AddrSpace, input: seq<u8>, segs: seq<Segment>)
  {
    var r := MapSegments(env, sp, input, segs);
    && (r.status.Done? <==>
          && (forall i :: 0 <= i < |segs| ==> Congruent(segs[i]) && SliceInFile(segs[i], input))
          && Accepts(env, sp.log, SegmentOps(input, segs)))
    && (r.status.Done? ==> r.space.log == sp.log + SegmentOps(input, segs))
  }

  /** One segment of `MapSegmentsSucceeds`: from the statement for the
      rest, after the first segment's allocation and copy, to the statement
      for all. */
  lemma MapSegmentsStep(env: Env, sp: AddrSpace, input: seq<u8>, segs: seq<Segment>, a: Op, w: Op)
    requires segs != [] && Congruent(segs[0]) && SliceInFile(segs[0], input)
    requires a == MapAlloc(SegmentRegion(segs[0]).0, SegmentRegion(segs[0]).1, segs[0].flags)
    requires w == Write(segs[0].vaddr, input[segs[0].offset..segs[0].offset + segs[0].filesz])
    requires MapSegmentsSpec(env, AddrSpace(sp.base, sp.log + [a, w]), input, segs[1..])
    ensures MapSegmentsSpec(env, sp, input, segs)
  {
    var sp1 := AddrSpace(sp.base, sp.log + [a]);
    var sp2 := AddrSpace(sp.base, sp.log + [a, w]);
    assert sp1.log + [w] == sp2.log;
    var r := MapSegments(env, sp, input, segs);
    var good := forall i :: 0 <= i < |segs| ==> Congruent(segs[i]) && SliceInFile(segs[i], input);
    GoodSegmentsSplit(segs, input);
    if good {
      SegmentsStepAccepts(env, sp.log, a, w, segs, input);
      var ops := SegmentOps(input, segs);
      var rest := SegmentOps(input, segs[1..]);
      assert ops == [a, w] + rest;
      assert sp2.log + rest == sp.log + ops;
    }
    if env.refuse(sp.log, a).Some? {
      assert r == Outcome(sp, Failed(env.refuse(sp.log, a).value));
    } else if env.refuse(sp1.log, w).Some? {
      assert r == Outcome(sp1, Failed(env.refuse(sp1.log, w).value));
    } else {
      assert r == MapSegments(env, sp2, input, segs[1..]);
    }
  }

  /** All segments are good exactly when the first one and the rest are. */
  lemma GoodSegmentsSplit(segs: seq<Segment>, input: seq<u8>)
    requires segs != []
    ensures (forall i :: 0 <= i < |segs| ==> Congruent(segs[i]) && SliceInFile(segs[i], input)) <==>
              && Congruent(segs[0]) && SliceInFile(segs[0], input)
              && (forall i :: 0 <= i < |segs[1..]| ==> Congruent(segs[1..][i]) && SliceInFile(segs[1..][i], input))
  {
    if Congruent(segs[0]) && SliceInFile(segs[0], input)
       && (forall i :: 0 <= i < |segs[1..]| ==> Congruent(segs[1..][i]) && SliceInFile(segs[1..][i], input)) {
      forall i | 1 <= i < |segs|
        ensures Congruent(segs[i]) && SliceInFile(segs[i], input)
      {
        assert segs[i] == segs[1..][i - 1];
      }
    }
  }

  /** A first segment that is not congruent or whose slice runs past the
      file stops the mapping. */
  lemma SegmentsFirstBad(env: Env, sp: AddrSpace, input: seq<u8>, segs: seq<Segment>)
    requires segs != [] && !(Congruent(segs[0]) && SliceInFile(segs[0], input))
    ensures !MapSegments(env, sp, input, segs).status.Done?
    ensures !(forall i :: 0 <= i < |segs| ==> Congruent(segs[i]) && SliceInFile(segs[i], input))
  {
  }

  /** Acceptance of the whole run splits into the first segment's two
      operations and the rest. */
  lemma SegmentsStepAccepts(env: Env, log: seq<Op>, a: Op, w: Op, segs: seq<Segment>, input: seq<u8>)
    requires segs != [] && SliceInFile(segs[0], input)
    requires forall i :: 0 <= i < |segs| ==> SliceInFile(segs[i], input)
    requires a == MapAlloc(SegmentRegion(segs[0]).0, SegmentRegion(segs[0]).1, segs[0].flags)
    requires w == Write(segs[0].vaddr, input[segs[0].offset..segs[0].offset + segs[0].filesz])
    ensures Accepts(env, log, SegmentOps(input, segs)) <==>
              && env.refuse(log, a).None?
              && env.refuse(log + [a], w).None?
              && Accepts(env, log + [a, w], SegmentOps(input, segs[1..]))
  {
    var ops := SegmentOps(input, segs);
    var rest := SegmentOps(input, segs[1..]);
    assert ops == [a, w] + rest;
    assert log + ops[..0] == log;
    assert log + ops[..1] == log + [a];
    forall i | 0 <= i < |rest|
      ensures log + ops[..i + 2] == log + [a, w] + rest[..i] && ops[i + 2] == rest[i]
    {
      assert ops[..i + 2] == [a, w] + rest[..i];
    }
    if Accepts(env, log, ops) {
      assert env.refuse(log + ops[..0], ops[0]).None?;
      assert env.refuse(log + ops[..1], ops[1]).None?;
      forall i | 0 <= i < |rest|
        ensures env.refuse(log + [a, w] + rest[..i], rest[i]).None?
      {
        assert env.refuse(log + ops[..i + 2], ops[i + 2]).None?;
      }
    }
    if && env.refuse(log, a).None?
       && env.refuse(log + [a], w).None?
       && Accepts(env, log + [a, w], rest) {
      forall i | 0 <= i < |ops|
        ensures env.refuse(log + ops[..i], ops[i]).None?
      {
        if 2 <= i {
          assert env.refuse(log + [a, w] + rest[..i - 2], rest[i - 2]).None?;
        }
      }
    }
  }

  // -----------------------------------------------------------------------
  // load_user_app

  /** The explicit path, else the first argument, else InvalidInput. */
  function ProgramPath(path: Option<string>, args: seq<string>): (r: Result<string>)
    ensures path.Some? ==> r == Ok(path.value)
    ensures path.None? && args != [] ==> r == Ok(args[0])
    ensures path.None? && args == [] ==> r == Err(InvalidInput)
  {
    match path
    case Some(p) => Ok(p)
    case None => if args == [] then Err(InvalidInput) else Ok(args[0])
  }

  predicate EndsWithSh(p: string)
  {
    |p| >= 3 && p[|p| - 3..] == ".sh"
  }

  /** `CStr::from_bytes_with_nul(..).to_str()`: the bytes end in their only
      NUL and the text before it is UTF-8. */
  function InterpPath(bytes: seq<u8>): (r: Option<string>)
    ensures r.Some? <==>
              && bytes != [] && bytes[|bytes| - 1] == 0
              && (forall i :: 0 <= i < |bytes| - 1 ==> bytes[i] != 0)
              && WellFormed(bytes[..|bytes| - 1])
    ensures r.Some? ==> Encode(r.value) + [0] == bytes
  {
    if bytes == [] || bytes[|bytes| - 1] != 0 then None
    else if exists i :: 0 <= i < |bytes| - 1 && bytes[i] == 0 then None
    else
      var text := bytes[..|bytes| - 1];
      match Decode(text)
      case Err(_) => None
      case Ok(s) =>
        EncodeDecode(text);
        assert text + [0] == bytes;
        Some(s)
  }

  /** The dynamic linker named by the PT_INTERP header, if there is one,
      loaded at the interpreter base: its entry and base. A header whose
      data is not raw bytes is a panic; a path that is not a NUL-terminated
      UTF-8 string is EINVAL; a file that is not ELF is ENOEXEC. */
  function LoadInterpreter(env: Env, layout: UserLayout, sp: AddrSpace, interp: Option<InterpData>)
    : (r: Outcome<Option<(nat, nat)>>)
    ensures r.space.base == sp.base
    ensures interp.None? ==> r == Outcome(sp, Done(None))
    ensures interp == Some(OtherData) ==> r == Outcome(sp, Panicked)
    ensures r.status.Done? && interp.Some? ==>
              && interp.value.Undefined?
              && InterpPath(interp.value.bytes).Some?
              && var ldso := InterpPath(interp.value.bytes).value;
                 && env.readFile(ldso).Ok?
                 && env.elfInterp(env.readFile(ldso).value).Some?
                 && var p := env.elfParser(ElfFile(env.readFile(ldso).value,
                                                   env.elfInterp(env.readFile(ldso).value).value),
                                           layout.interpBase);
                    && p.Some?
                    && r.status.value == Some((p.value.entry, p.value.base))
    ensures !r.status.OutOfFuel?
  {
    match interp
    case None => Outcome(sp, Done(None))
    case Some(OtherData) => Outcome(sp, Panicked)
    case Some(Undefined(bytes)) =>
      match InterpPath(bytes)
      case None => Outcome(sp, Failed(EINVAL))
      case Some(ldso) =>
        match env.readFile(ldso)
        case Err(e) => Outcome(sp, Failed(e))
        case Ok(data) =>
          match env.elfInterp(data)
          case None => Outcome(sp, Failed(ENOEXEC))
          case Some(h) =>
            var m := MapElf(env, sp, layout.interpBase, ElfFile(data, h));
            match m.status
            case Done(parser) => Outcome(m.space, Done(Some((parser.entry, parser.base))))
            case Failed(e) => Outcome(m.space, Failed(e))
            case _ => Outcome(m.space, Panicked)
  }

  /** `a - b` on virtual addresses, which must not wrap below zero. */
  function AddrSub(a: nat, b: nat): (r: Option<nat>)
    ensures r.Some? <==> b <= a
    ensures r.Some? ==> r.value + b == a
  {
    if b <= a then Some(a - b) else None
  }

  /** The stack and heap: map the stack region
      [top - size, top), place the stack image so that it ends at the top,
      write it, map the heap, and write the image once more. The result is
      the stack pointer, the start of the image. */
  function SetUpStack(env: Env, layout: UserLayout, sp: AddrSpace, image: seq<u8>): (r: Outcome<nat>)
    ensures r.space.base == sp.base
    ensures layout.stackSize > layout.stackTop ==> r == Outcome(sp, Panicked)
    ensures |image| > layout.stackTop ==> !r.status.Done?
    ensures r.status.Done? ==>
              && r.status.value + |image| == layout.stackTop
              && var start := layout.stackTop - layout.stackSize;
                 r.space.log == sp.log + [MapAlloc(start, layout.stackSize, USER_RW),
                                          Write(r.status.value, image),
                                          MapAlloc(layout.heapBase, layout.heapSize, USER_RW),
                                          Write(r.status.value, image)]
    ensures r.status.Done? && |image| <= layout.stackSize ==>
              layout.stackTop - layout.stackSize <= r.status.value
    ensures !r.status.OutOfFuel?
  {
    match AddrSub(layout.stackTop, layout.stackSize)
    case None => Outcome(sp, Panicked)
    case Some(start) =>
      match Apply(env, sp, MapAlloc(start, layout.stackSize, USER_RW))
      case Err(e) => Outcome(sp, Failed(e))
      case Ok(sp1) =>
        match AddrSub(layout.stackTop, |image|)
        case None => Outcome(sp1, Panicked)
        case Some(userSp) =>
          match Apply(env, sp1, Write(userSp, image))
          case Err(e) => Outcome(sp1, Failed(e))
          case Ok(sp2) =>
            match Apply(env, sp2, MapAlloc(layout.heapBase, layout.heapSize, USER_RW))
            case Err(e) => Outcome(sp2, Failed(e))
            case Ok(sp3) =>
              match Apply(env, sp3, Write(userSp, image))
              case Err(e) => Outcome(sp3, Failed(e))
              case Ok(sp4) => Outcome(sp4, Done(userSp))
  }

  /** The ELF part of the loader: read the headers (ENOEXEC when the bytes
      are not ELF), load the dynamic linker if one is named, map the program
      at the address-space base, and set up the stack. The entry point is
      the dynamic linker's when there is one, the program's otherwise. */
  function LoadElf(env: Env, layout: UserLayout, sp: AddrSpace, data: seq<u8>,
                   args: seq<string>, envs: seq<string>): (r: Outcome<(nat, nat)>)
    ensures r.space.base == sp.base
    ensures env.elfInterp(data).None? ==> r == Outcome(sp, Failed(ENOEXEC))
    ensures !r.status.OutOfFuel?
  {
    match env.elfInterp(data)
    case None => Outcome(sp, Failed(ENOEXEC))
    case Some(h) =>
      var li := LoadInterpreter(env, layout, sp, h);
      if !li.status.Done? then Outcome(li.space, Abandon(li.status))
      else
        var ldso := li.status.value;
        var m := MapElf(env, li.space, li.space.base, ElfFile(data, h));
        if !m.status.Done? then Outcome(m.space, Abandon(m.status))
        else
          var parser := m.status.value;
          var entry := if ldso.Some? then ldso.value.0 else parser.entry;
          var base := if ldso.Some? then Some(ldso.value.1) else None;
          var start := if layout.stackSize <= layout.stackTop then layout.stackTop - layout.stackSize else 0;
          var image := env.stackImage(parser, base, args, envs, start, layout.stackSize);
          var st := SetUpStack(env, layout, m.space, image);
          if !st.status.Done? then Outcome(st.space, Abandon(st.status))
          else Outcome(st.space, Done((entry, st.status.value)))
  }

  /** A stage that did not finish ends the whole load the same way. */
  function Abandon<T, U>(s: Status<T>): (r: Status<U>)
    requires !s.Done?
    ensures r.Failed? <==> s.Failed?
    ensures r.Failed? ==> r.error == s.error
    ensures r.Panicked? <==> s.Panicked?
  {
    match s
    case Failed(e) => Failed(e)
    case Panicked => Panicked
    case OutOfFuel => OutOfFuel
  }

  /** `load_user_app`. Each re-entry for a shell script or a `#!` file uses
      one unit of `fuel`; the program does not bound the re-entries. */
  function LoadUserApp(env: Env, layout: UserLayout, sp: AddrSpace, path: Option<string>,
                       args: seq<string>, envs: seq<string>, fuel: nat): (r: Outcome<(nat, nat)>)
    ensures r.space.base == sp.base
    ensures fuel > 0 && path.None? && args == [] ==> r == Outcome(sp, Failed(InvalidInput))
    decreases fuel
  {
    if fuel == 0 then Outcome(sp, OutOfFuel)
    else
      match ProgramPath(path, args)
      case Err(e) => Outcome(sp, Failed(e))
      case Ok(p) =>
        if EndsWithSh(p) then LoadUserApp(env, layout, sp, None, ["/bin/sh"] + args, envs, fuel - 1)
        else
          match env.readFile(p)
          case Err(e) => Outcome(sp, Failed(e))
          case Ok(data) =>
            if StartsWithShebang(data) then
              match ShebangArgs(data)
              case Err(e) => Outcome(sp, Failed(e))
              case Ok(parts) => LoadUserApp(env, layout, sp, None, parts + args, envs, fuel - 1)
            else LoadElf(env, layout, sp, data, args, envs)
  }

  // -----------------------------------------------------------------------
  // Properties of the loader

  /** A path ending in `.sh` re-enters with no path and `/bin/sh` in front
      of the arguments; the script itself is never read. */
  lemma ShellScriptReenters(env: Env, layout: UserLayout, sp: AddrSpace, path: Option<string>,
                            args: seq<string>, envs: seq<string>, fuel: nat)
    requires fuel > 0
    requires ProgramPath(path, args).Ok? && EndsWithSh(ProgramPath(path, args).value)
    ensures LoadUserApp(env, layout, sp, path, args, envs, fuel)
         == LoadUserApp(env, layout, sp, None, ["/bin/sh"] + args, envs, fuel - 1)
  {
  }

  /** A `#!` file re-enters with no path and the shebang parts in front of
      the arguments, or fails with InvalidData when its line is not UTF-8,
      before anything is mapped. */
  lemma ShebangReenters(env: Env, layout: UserLayout, sp: AddrSpace, path: Option<string>,
                        args: seq<string>, envs: seq<string>, fuel: nat)
    requires fuel > 0
    requires ProgramPath(path, args).Ok? && !EndsWithSh(ProgramPath(path, args).value)
    requires env.readFile(ProgramPath(path, args).value).Ok?
    requires StartsWithShebang(env.readFile(ProgramPath(path, args).value).value)
    ensures var data := env.readFile(ProgramPath(path, args).value).value;
            var r := LoadUserApp(env, layout, sp, path, args, envs, fuel);
            match ShebangArgs(data)
            case Ok(parts) => r == LoadUserApp(env, layout, sp, None, parts + args, envs, fuel - 1)
            case Err(_) => r == Outcome(sp, Failed(InvalidData))
  {
  }

  /** A file that is neither a script nor ELF is ENOEXEC, with nothing
      mapped. */
  lemma NotElfIsNoExec(env: Env, layout: UserLayout, sp: AddrSpace, path: Option<string>,
                       args: seq<string>, envs: seq<string>, fuel: nat)
    requires fuel > 0
    requires ProgramPath(path, args).Ok? && !EndsWithSh(ProgramPath(path, args).value)
    requires env.readFile(ProgramPath(path, args).value).Ok?
    requires !StartsWithShebang(env.readFile(ProgramPath(path, args).value).value)
    requires env.elfInterp(env.readFile(ProgramPath(path, args).value).value).None?
    ensures LoadUserApp(env, layout, sp, path, args, envs, fuel) == Outcome(sp, Failed(ENOEXEC))
  {
  }

  /** A successful load of an ELF image returns the dynamic linker's entry
      when the image names one and the image's own entry otherwise, and a
      stack pointer that ends the stack image exactly at the stack top. The
      image is the one built from the main image's parser, the dynamic
      linker's base, the arguments and the environment for the stack region
      below the stack top; the last four operations map the stack, write the
      image, map the heap and write the image again. */
  lemma LoadElfEntryAndStack(env: Env, layout: UserLayout, sp: AddrSpace, data: seq<u8>,
                             args: seq<string>, envs: seq<string>)
    requires LoadElf(env, layout, sp, data, args, envs).status.Done?
    ensures var r := LoadElf(env, layout, sp, data, args, envs);
            var h := env.elfInterp(data).value;
            var li := LoadInterpreter(env, layout, sp, h);
            var main := env.elfParser(ElfFile(data, h), sp.base);
            && li.status.Done? && main.Some?
            && (h.None? ==> r.status.value.0 == main.value.entry)
            && (h.Some? ==> li.status.value.Some? && r.status.value.0 == li.status.value.value.0)
            && layout.stackSize <= layout.stackTop
            && var ldsoBase := if li.status.value.Some? then Some(li.status.value.value.1) else None;
               var image := env.stackImage(main.value, ldsoBase, args, envs,
                                           layout.stackTop - layout.stackSize, layout.stackSize);
               && r.status.value.1 + |image| == layout.stackTop
               && |r.space.log| >= 4
               && r.space.log[|r.space.log| - 4..] ==
                    [MapAlloc(layout.stackTop - layout.stackSize, layout.stackSize, USER_RW),
                     Write(r.status.value.1, image),
                     MapAlloc(layout.heapBase, layout.heapSize, USER_RW),
                     Write(r.status.value.1, image)]
  {
    var r := LoadElf(env, layout, sp, data, args, envs);
    var h := env.elfInterp(data).value;
    var li := LoadInterpreter(env, layout, sp, h);
    var ldso := li.status.value;
    var m := MapElf(env, li.space, li.space.base, ElfFile(data, h));
    var parser := m.status.value;
    var base := if ldso.Some? then Some(ldso.value.1) else None;
    var start := if layout.stackSize <= layout.stackTop then layout.stackTop - layout.stackSize else 0;
    var image := env.stackImage(parser, base, args, envs, start, layout.stackSize);
    var st := SetUpStack(env, layout, m.space, image);
    assert r.status.value.1 == st.status.value;
    var log := st.space.log;
    assert log[|log| - 4..] == [MapAlloc(start, layout.stackSize, USER_RW), Write(st.status.value, image),
                                MapAlloc(layout.heapBase, layout.heapSize, USER_RW), Write(st.status.value, image)];
  }
}
