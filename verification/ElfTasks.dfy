/**
 The memory of tasks that are given a directory: programs loaded from ELF files, which
 get their segments along with it, and other tasks whose caller makes the directory.
 */
module ElfTasks {
  import opened Common
  import opened Pmm
  import opened Paging
  import opened Bytes
  import opened Space
  import opened Ranges
  import opened Allocation
  import opened Directories
  import opened TaskMemory
  import opened UserMemory
  import opened Elf

  /** An ELF file, as far as loading and unloading it look at it. */
  datatype Program = Program(h: Header, segs: seq<Segment>, file: seq<Byte>)

  ghost predicate Sound(p: Program) {
    forall g <- p.segs :: Loadable(g, p.file)
  }

  /** The program of a task that has none loads nothing. */
  ghost function LoadProgram(s: St, p: Option<Program>, dir: Frame): St
    requires p.Some? ==> Sound(p.value)
  {
    if p.None? then s else ElfLoad(s, p.value.h, p.value.segs, p.value.file, dir).0
  }

  /** The allocations loading a program makes; a file that is not suitable gets none. */
  ghost function ImageOf(s: St, p: Option<Program>, dir: Frame): seq<Piece>
    requires p.Some? ==> Sound(p.value)
  {
    if p.None? || !Suitable(p.value.h) then [] else ElfPieces(s, p.value.segs, p.value.file, dir)
  }

  /** The memory part of elf_create_task; without a program, of creating a task in a directory made for it. */
  ghost function CreateIn(s: St, p: Option<Program>, kernelLen: nat, userLen: nat): (St, Task)
    requires (p.Some? ==> Sound(p.value)) && kernelLen < WORD && userLen < WORD
  {
    var (s1, dir) := Create(s);
    CreateTaskIn(LoadProgram(s1, p, dir), dir, ImageOf(s1, p, dir), kernelLen, userLen)
  }

  /** The memory part of elf_destroy_task, or of task_destroy for a task without a program. */
  ghost function DestroyAny(s: St, p: Option<Program>, t: Task): St
    requires p.Some? ==> Sound(p.value)
  {
    if p.None? then DestroyTask(s, t) else DestroyTask(ElfUnload(s, p.value.h, p.value.segs, t.dir), t)
  }

  /** The segments a task holds are those of its program. */
  ghost predicate Runs(t: Task, p: Option<Program>) {
    if p.None? || !Suitable(p.value.h) then t.image == []
    else |t.image| == |p.value.segs| && forall i :: 0 <= i < |t.image| ==> Matches(p.value.segs[i], t.image[i])
  }

  // ----- creating

  lemma LoadProgramExact(s: St, p: Option<Program>, t: Task)
    requires Inv(s) && s.saved == 0 && IsDir(s, t.dir) && s.clean && (p.Some? ==> Sound(p.value))
    requires LoadProgram(s, p, t.dir).clean && t.image == ImageOf(s, p, t.dir)
    ensures var s1 := LoadProgram(s, p, t.dir);
            && Adds(s, s1, t) && s1.cr3 == s.cr3 && s1.saved == 0
            && (forall q <- t.image :: Held(s1, t.dir, q, true) && (q.len > 0 ==> q.tag >= s.next))
            && AllDistinct(t.image) && Runs(t, p)
  {
    hide Inv, ElfLoad, TookOnly, Loaded, Loadable, Held, Adds, ElfPieces, Matches;
    if p.None? || !Suitable(p.value.h) {
      Unsuitable(s, p, t.dir);
      AddsRefl(s, t);
    } else {
      var s1 := LoadProgram(s, p, t.dir);
      ElfLoadExact(s, p.value.h, p.value.segs, p.value.file, t.dir);
      LoadedHeld(s1, t.dir, s.next, p.value.segs, p.value.file, t.image);
      TookAdds(s, s1, t.dir, t);
    }
  }

  lemma Unsuitable(s: St, p: Option<Program>, dir: Frame)
    requires (p.Some? ==> Sound(p.value)) && (p.None? || !Suitable(p.value.h))
    ensures LoadProgram(s, p, dir) == s
  {
  }

  /** A task that is given a new directory and a program takes only unused frames, and holds all of them. */
  lemma CreateInExact(s: St, p: Option<Program>, kernelLen: nat, userLen: nat)
    requires Inv(s) && s.saved == 0 && (p.Some? ==> Sound(p.value)) && kernelLen < WORD && userLen < WORD
    requires CreateIn(s, p, kernelLen, userLen).0.clean
    ensures var (s1, t) := CreateIn(s, p, kernelLen, userLen);
            && Adds(s, s1, t) && s1.cr3 == s.cr3 && s1.saved == 0
            && TaskHeld(s1, t) && WellTagged(t) && NewTags(t, s.next) && Runs(t, p)
            && t.rec.len == TASK_SIZE && t.kstack.len == kernelLen && t.ustack.len == userLen
            && t.dir != s.cr3 && t.dir !in s.own && !s1.mem[t.dir][0].pr && StacksMarked(t) && Protected(s1, t)
  {
    hide Inv, Create, LoadProgram, CreateTaskIn, Adds, Held, ImageOf, WellTagged;
    var (s1, dir) := Create(s);
    var s2, image := LoadProgram(s1, p, dir), ImageOf(s1, p, dir);
    var (s3, t) := CreateIn(s, p, kernelLen, userLen);
    CreateInClean(s, p, kernelLen, userLen);
    InDirectory(s2, dir, image, kernelLen, userLen);
    NoDirZero(s);
    AddCreate(s, t);
    AddsInv(s, s1, t);
    LoadProgramExact(s1, p, t);
    AddsInv(s1, s2, t);
    CreateTaskInExact(s2, dir, image, kernelLen, userLen);
    AddsTrans(s, s1, s2, t);
    AddsTrans(s, s2, s3, t);
    AddsFirst(s1, s2, t);
    AddsFirst(s2, s3, t);
    InParts(t);
    InParts(t.(image := []));
  }

  lemma InDirectory(s: St, dir: Frame, image: seq<Piece>, kernelLen: nat, userLen: nat)
    requires kernelLen < WORD && userLen < WORD
    ensures var t := CreateTaskIn(s, dir, image, kernelLen, userLen).1; t.dir == dir && t.image == image
  {
  }

  lemma CreateInClean(s: St, p: Option<Program>, kernelLen: nat, userLen: nat)
    requires (p.Some? ==> Sound(p.value)) && kernelLen < WORD && userLen < WORD
             && CreateIn(s, p, kernelLen, userLen).0.clean
    ensures var (s1, dir) := Create(s);
            s.clean && s1.clean && LoadProgram(s1, p, dir).clean
            && CreateTaskIn(LoadProgram(s1, p, dir), dir, ImageOf(s1, p, dir), kernelLen, userLen).0.clean
  {
    hide Create, LoadProgram, CreateTaskIn;
    var (s1, dir) := Create(s);
    CreateTaskInClean(LoadProgram(s1, p, dir), dir, ImageOf(s1, p, dir), kernelLen, userLen);
    LoadProgramCleans(s1, p, dir);
    CreateCleans(s);
  }

  lemma LoadProgramCleans(s: St, p: Option<Program>, dir: Frame)
    requires (p.Some? ==> Sound(p.value)) && LoadProgram(s, p, dir).clean
    ensures s.clean
  {
    hide Load, LoadSegments;
    if p.Some? && Suitable(p.value.h) {
      var s1 := Modify(s, dir);
      var s2 := LoadSegments(s1, p.value.segs, p.value.file);
      if s2.saved != 0 { LoadCleans(s2, s2.saved); }
      LoadSegmentsCleans(s1, p.value.segs, p.value.file);
      if s.saved == 0 { LoadCleans(s, dir); }
    }
  }

  // ----- destroying

  /** Unloading the program of a task sheds exactly its segments. */
  lemma UnloadProgram(s: St, p: Program, t: Task)
    requires Inv(s) && s.saved == 0 && s.clean && TaskHeld(s, t) && WellTagged(t) && Sound(p) && Runs(t, Some(p))
    requires ElfUnload(s, p.h, p.segs, t.dir).clean
    ensures var s1 := ElfUnload(s, p.h, p.segs, t.dir);
            && Sheds(s, s1, t) && s1.cr3 == s.cr3 && s1.saved == 0 && TaskHeld(s1, t.(image := []))
            && (forall f <- s1.own :: !AnyTag(t.image, s1.own[f]))
  {
    hide Inv, ElfUnload, Held, Steady, Owns, Matches, WellTagged;
    if !Suitable(p.h) {
      NotUnloaded(s, p, t.dir);
      ShedsRefl(s, t);
      return;
    }
    var s1 := ElfUnload(s, p.h, p.segs, t.dir);
    ImageHeldAll(s, p, t);
    ElfUnloadExact(s, p.h, p.segs, t.dir, t.image);
    NoDirZero(s);
    UnloadedSheds(s, s1, t);
    WellTaggedParts(t);
    UnloadedKeeps(s, s1, t);
  }

  lemma NotUnloaded(s: St, p: Program, dir: Frame)
    requires Sound(p) && !Suitable(p.h)
    ensures ElfUnload(s, p.h, p.segs, dir) == s
  {
  }

  lemma ImageHeldAll(s: St, p: Program, t: Task)
    requires TaskHeld(s, t) && WellTagged(t) && Suitable(p.h) && Runs(t, Some(p))
    ensures HeldAll(s, t.dir, p.segs, t.image)
  {
    hide Held, Matches;
    var qs := Parts(t);
    forall i, j | 0 <= i < j < |t.image|
      ensures DistinctTags(t.image[i], t.image[j])
    {
      assert t.image[i] == qs[i + 3] && t.image[j] == qs[j + 3];
    }
  }

  lemma UnloadedSheds(s: St, s1: St, t: Task)
    requires Inv(s) && Inv(s1) && s.clean && forall f: Frame :: Unloaded(s, s1, t.image, f)
    ensures forall f <- s1.own :: (f in s.own && s1.own[f] == s.own[f]) || s1.own[f].KernelTable?
    ensures forall f <- s.own :: (f in s1.own && s1.own[f] == s.own[f]) || Owns(t, f, s.own[f])
    ensures forall f <- s1.own :: !AnyTag(t.image, s1.own[f])
    ensures forall d: Frame :: IsDir(s, d) ==> IsDir(s1, d)
  {
    hide Inv, AnyTag;
    forall f: Frame
      ensures f in s1.own ==>
                ((f in s.own && s1.own[f] == s.own[f]) || s1.own[f].KernelTable?) && !AnyTag(t.image, s1.own[f])
      ensures f in s.own ==> (f in s1.own && s1.own[f] == s.own[f]) || Owns(t, f, s.own[f])
      ensures IsDir(s, f) ==> IsDir(s1, f)
    {
      assert Unloaded(s, s1, t.image, f);
      OnlyData(t.image, Directory);
      if f in s1.own && s1.own[f].KernelTable? { OnlyData(t.image, s1.own[f]); }
    }
  }

  lemma OnlyData(qs: seq<Piece>, r: Role)
    ensures !r.Data? ==> !AnyTag(qs, r)
  {
  }

  lemma UnloadedKeeps(s: St, s1: St, t: Task)
    requires Inv(s) && TaskHeld(s, t) && (forall d: Frame :: IsDir(s, d) ==> IsDir(s1, d))
    requires forall q <- t.image :: DistinctTags(t.rec, q) && DistinctTags(t.kstack, q) && DistinctTags(t.ustack, q)
    requires forall d: Frame, q: Piece, user: bool ::
               Held(s, d, q, user) && d != 0 && AllForeign(t.image, q) ==> Held(s1, d, q, user)
    ensures TaskHeld(s1, t.(image := []))
    ensures forall u: Task :: TaskHeld(s, u) && Apart(t, u) ==> TaskHeld(s1, u)
  {
    hide Inv, Held;
    NoDirZero(s);
    assert AllForeign(t.image, t.rec) && AllForeign(t.image, t.kstack) && AllForeign(t.image, t.ustack);
    forall u: Task | TaskHeld(s, u) && Apart(t, u)
      ensures TaskHeld(s1, u)
    {
      InParts(t);
      InParts(u);
      assert forall q <- Parts(u) :: AllForeign(t.image, q);
    }
  }

  /** What sheds only frames of a task without its program sheds only frames of the task. */
  lemma ShedsMore(s: St, s1: St, t: Task)
    requires Sheds(s, s1, t.(image := []))
    ensures Sheds(s, s1, t)
  {
    hide Inv, TaskHeld, Steady;
    InParts(t);
    InParts(t.(image := []));
    forall u: Task | TaskHeld(s, u) && Apart(t, u)
      ensures Apart(t.(image := []), u)
    {
      assert forall q <- Parts(t.(image := [])) :: q in Parts(t);
    }
  }

  /** Destroying a task gives back every frame it owns, its program included, and no other. */
  lemma DestroyAnyExact(s: St, p: Option<Program>, t: Task)
    requires Inv(s) && s.saved == 0 && TaskHeld(s, t) && WellTagged(t) && t.dir != s.cr3
    requires (p.Some? ==> Sound(p.value)) && Runs(t, p) && DestroyAny(s, p, t).clean
    ensures var s1 := DestroyAny(s, p, t);
            && Sheds(s, s1, t) && s1.cr3 == s.cr3 && s1.saved == 0
            && (forall f <- s1.own :: !Owns(t, f, s1.own[f]))
  {
    hide Inv, ElfUnload, DestroyTask, Held, Sheds, Owns, WellTagged, Matches;
    if p.None? {
      DestroyTaskExact(s, t);
      return;
    }
    var u := t.(image := []);
    var s1 := ElfUnload(s, p.value.h, p.value.segs, t.dir);
    SameDestruction(s1, t);
    DestroyTaskClean(s1, u);
    UnloadCleans(s, p.value, t);
    UnloadProgram(s, p.value, t);
    ShedsInv(s, s1, t);
    FewerParts(t);
    DestroyTaskExact(s1, u);
    ShedsMore(s1, DestroyTask(s1, t), t);
    ShedsTrans(s, s1, DestroyTask(s1, t), t);
    NothingLeft(s1, DestroyTask(s1, t), t);
  }

  lemma SameDestruction(s: St, t: Task)
    ensures DestroyTask(s, t.(image := [])) == DestroyTask(s, t)
  {
  }

  lemma UnloadCleans(s: St, p: Program, t: Task)
    requires Inv(s) && s.saved == 0 && Sound(p) && ElfUnload(s, p.h, p.segs, t.dir).clean
    ensures s.clean
  {
    hide Inv, Load, FreeSegments;
    NoDirZero(s);
    if Suitable(p.h) {
      ElfUnloadClean(s, p.h, p.segs, t.dir);
    }
  }

  lemma FewerParts(t: Task)
    requires WellTagged(t)
    ensures WellTagged(t.(image := []))
  {
    WellTaggedParts(t);
    MakeWellTagged(t.(image := []));
  }

  lemma NothingLeft(s: St, s1: St, t: Task)
    requires Sheds(s, s1, t) && forall f <- s.own :: !AnyTag(t.image, s.own[f])
    requires forall f <- s1.own :: !Owns(t.(image := []), f, s1.own[f])
    ensures forall f <- s1.own :: !Owns(t, f, s1.own[f])
  {
    hide Inv, TaskHeld, Apart, Steady;
  }
}
