/** Descriptors and reference counts as a table: what vfs_open, vfs_close (kernel/fs/vfs.c), process_close_fd
    (kernel/proc/process.c), file_create and file_destroy (kernel/fs/file.c) do to it. */
module FdTable {
  import opened Vnodes
  import opened Words
  import VfsPath

  datatype Slot<F> = Free | Used(file: F)

  datatype Rec<V> = Rec(node: V, refcount: int)

  // files holds every file ever created, whether or not a slot still names it.
  datatype Table<V(==), F(==)> = Table(slots: seq<Slot<F>>, files: map<F, Rec<V>>, counts: map<V, nat>)

  // The first free slot, or the length.
  function FirstFree<F>(slots: seq<Slot<F>>): (i: nat)
    ensures i <= |slots| && (i < |slots| ==> slots[i].Free?)
    ensures forall j :: 0 <= j < i ==> slots[j].Used?
  {
    if slots == [] || slots[0].Free? then 0 else 1 + FirstFree(slots[1..])
  }

  lemma FirstFreeIs<F>(slots: seq<Slot<F>>, i: nat)
    requires i <= |slots| && (i < |slots| ==> slots[i].Free?) && forall j :: 0 <= j < i ==> slots[j].Used?
    ensures FirstFree(slots) == i
  {
    var k := FirstFree(slots);
  }

  // process_get_file refuses descriptor 0.
  function Get<V, F>(t: Table<V, F>, fd: int): Slot<F> {
    if fd <= 0 || fd >= |t.slots| then Free else t.slots[fd]
  }

  function OpenCode<V, F>(t: Table<V, F>, found: VfsPath.Result<V>, grant: bool): (code: int)
    requires found.Err? ==> found.code < 0
    ensures code >= 0 ==> found.Ok? && code < |t.slots| && t.slots[code].Free?
  {
    var fd := FirstFree(t.slots);
    if found.Err? then found.code
    else if fd == |t.slots| then -EMFILE
    else if !grant then -ENOMEM
    else fd
  }

  function Open<V, F>(t: Table<V, F>, found: VfsPath.Result<V>, made: F, grant: bool): (Table<V, F>, int)
    requires found.Err? ==> found.code < 0
  {
    var code := OpenCode(t, found, grant);
    (if code < 0 then t else Opened(t, code, made, found.value), code)
  }

  // file_create, and the slot filled.
  function Opened<V, F>(t: Table<V, F>, fd: nat, made: F, v: V): Table<V, F>
    requires fd < |t.slots|
  {
    var counts := if v in t.counts then t.counts[v := (t.counts[v] + 1) % SIZE_LIMIT] else t.counts;
    Table(t.slots[fd := Used(made)], t.files[made := Rec(v, 1)], counts)
  }

  // The count of a file is an int.
  const INT_MIN: int := -0x8000_0000

  function Dec(count: int): int {
    if count == INT_MIN then -(INT_MIN + 1) else count - 1
  }

  // The slot keeps naming the file; only the close that takes the count from 1 to 0 releases the vnode, and
  // file_destroy then takes it to -1.
  function Close<V, F>(t: Table<V, F>, fd: int): (Table<V, F>, int) {
    match Get(t, fd)
    case Free => (t, -ENOENT)
    case Used(f) =>
      if f !in t.files then (t, 0)
      else
        var rec := t.files[f];
        if rec.refcount != 1 then (t.(files := t.files[f := rec.(refcount := Dec(rec.refcount))]), 0)
        else (Released(t.(files := t.files[f := rec.(refcount := -1)]), rec.node), 0)
  }

  function Released<V, F>(t: Table<V, F>, v: V): Table<V, F> {
    if v in t.counts && t.counts[v] > 0 then t.(counts := t.counts[v := t.counts[v] - 1]) else t
  }

  // process_close_fd
  function Drop<V, F>(t: Table<V, F>, fd: int): (Table<V, F>, int) {
    if fd <= 0 || fd >= |t.slots| then (t, -EINVAL)
    else if t.slots[fd].Free? then (t, -EBADF)
    else (t.(slots := t.slots[fd := Free]), 0)
  }

  // ----- conservation -----

  // The files on v whose own count is still positive.
  function LiveOn<V(==), F>(files: map<F, Rec<V>>, v: V): set<F> {
    set f | f in files && files[f].node == v && files[f].refcount > 0
  }

  // Occupied slots name files, and no two the same one.
  ghost predicate SlotsOk<V, F>(t: Table<V, F>) {
    && (forall i :: 0 <= i < |t.slots| && t.slots[i].Used? ==> t.slots[i].file in t.files)
    && (forall i, j :: 0 <= i < j < |t.slots| && t.slots[i].Used? ==> t.slots[i] != t.slots[j])
  }

  // A file is open with count 1 or has been closed, after which its count is negative.
  ghost predicate FilesOk<V, F>(t: Table<V, F>) {
    forall f :: f in t.files ==> t.files[f].node in t.counts && CountOk(t.files[f].refcount)
  }

  predicate CountOk(count: int) {
    INT_MIN <= count <= 1 && count != 0
  }

  // Each vnode is counted once at the start and once for every file on it that is still open.
  ghost predicate CountsOk<V, F>(t: Table<V, F>, initial: map<V, nat>) {
    t.counts.Keys == initial.Keys && forall v :: v in t.counts ==> t.counts[v] == initial[v] + |LiveOn(t.files, v)|
  }

  ghost predicate Inv<V, F>(t: Table<V, F>, initial: map<V, nat>) {
    SlotsOk(t) && FilesOk(t) && CountsOk(t, initial)
  }

  lemma LiveSize<V, F>(files: map<F, Rec<V>>, v: V)
    ensures |LiveOn(files, v)| <= |files|
  {
    SubsetSize(LiveOn(files, v), files.Keys);
  }

  lemma {:induction false} SubsetSize<T>(a: set<T>, b: set<T>)
    requires a <= b
    ensures |a| <= |b|
  {
    if a != {} {
      var x :| x in a;
      SubsetSize(a - {x}, b - {x});
    }
  }

  lemma LiveAdd<V, F>(files: map<F, Rec<V>>, f: F, v: V, w: V)
    requires f !in files
    ensures |LiveOn(files[f := Rec(v, 1)], w)| == |LiveOn(files, w)| + if w == v then 1 else 0
  {
    assert LiveOn(files[f := Rec(v, 1)], w) == LiveOn(files, w) + if w == v then {f} else {};
  }

  lemma LiveEnd<V, F>(files: map<F, Rec<V>>, f: F, count: int, w: V)
    requires f in files && count <= 0
    ensures |LiveOn(files, w)| == |LiveOn(files[f := files[f].(refcount := count)], w)|
      + if w == files[f].node && files[f].refcount > 0 then 1 else 0
  {
    var ended := LiveOn(files[f := files[f].(refcount := count)], w);
    assert LiveOn(files, w) == ended + if w == files[f].node && files[f].refcount > 0 then {f} else {};
  }

  // One more file takes the count of the vnode past the greatest size_t.
  predicate Wraps<V, F>(t: Table<V, F>, v: V) {
    v in t.counts && t.counts[v] + 1 >= SIZE_LIMIT
  }

  // Every open keeps the invariant but one that succeeds on a vnode whose count wraps to 0.
  lemma OpenKeepsInv<V, F>(t: Table<V, F>, initial: map<V, nat>, found: VfsPath.Result<V>, made: F, grant: bool)
    requires Inv(t, initial) && made !in t.files && (if found.Ok? then found.value in t.counts else found.code < 0)
    ensures var (u, code) := Open(t, found, made, grant);
      && (Inv(u, initial) <==> code < 0 || !Wraps(t, found.value))
      && |u.slots| == |t.slots| && (code < 0 ==> u == t)
  {
    var fd := OpenCode(t, found, grant);
    hide SlotsOk, FilesOk, CountsOk, Opened, OpenCode, Wraps;
    if fd >= 0 {
      OpenedSlots(t, fd, made, found.value);
      OpenedFiles(t, fd, made, found.value);
      OpenedCounts(t, fd, initial, made, found.value);
    }
  }

  lemma OpenedSlots<V, F>(t: Table<V, F>, fd: nat, made: F, v: V)
    requires SlotsOk(t) && made !in t.files && fd < |t.slots| && v in t.counts
    ensures SlotsOk(Opened(t, fd, made, v)) && |Opened(t, fd, made, v).slots| == |t.slots|
  {
  }

  lemma OpenedFiles<V, F>(t: Table<V, F>, fd: nat, made: F, v: V)
    requires FilesOk(t) && fd < |t.slots| && v in t.counts
    ensures FilesOk(Opened(t, fd, made, v))
  {
  }

  lemma OpenedCounts<V, F>(t: Table<V, F>, fd: nat, initial: map<V, nat>, made: F, v: V)
    requires CountsOk(t, initial) && made !in t.files && fd < |t.slots| && v in t.counts
    ensures CountsOk(Opened(t, fd, made, v), initial) <==> !Wraps(t, v)
  {
    var files := t.files[made := Rec(v, 1)];
    forall w | w in t.counts ensures |LiveOn(files, w)| == |LiveOn(t.files, w)| + if w == v then 1 else 0 {
      LiveAdd(t.files, made, v, w);
    }
    hide LiveOn;
    var u := Opened(t, fd, made, v);
    assert v in u.counts && u.counts[v] == (t.counts[v] + 1) % SIZE_LIMIT;
  }

  // Such an open: the vnode then looks unused, although it is open.
  lemma OpenWraps<V, F>(v: V, made: F)
    ensures var t := Table(seq(OPEN_MAX, _ => Free), map[], map[v := SIZE_LIMIT - 1]);
      var (u, fd) := Open(t, VfsPath.Ok(v), made, true);
      fd == 0 && LiveIn(u, made) && u.counts == map[v := 0]
  {
  }

  // The next close of the descriptor takes the count of its file past the least int.
  predicate Overflows<V, F>(t: Table<V, F>, fd: int) {
    Get(t, fd).Used? && Get(t, fd).file in t.files && t.files[Get(t, fd).file].refcount == INT_MIN
  }

  // Every close keeps the invariant but the one after 2^31 closes of one descriptor, when the count of a file that is
  // closed becomes positive again.
  lemma CloseKeepsInv<V, F>(t: Table<V, F>, initial: map<V, nat>, fd: int)
    requires Inv(t, initial)
    ensures var u := Close(t, fd).0;
      (Inv(u, initial) <==> !Overflows(t, fd)) && u.files.Keys == t.files.Keys && u.slots == t.slots
  {
    CloseFiles(t, fd);
    if !Overflows(t, fd) {
      CloseSlots(t, fd);
      if Get(t, fd).Used? { CloseCounts(t, initial, fd); }
    }
    hide SlotsOk, CountsOk, FilesOk, LiveOn;
  }

  lemma CloseFiles<V, F>(t: Table<V, F>, fd: int)
    requires SlotsOk(t) && FilesOk(t)
    ensures var u := Close(t, fd).0;
      (FilesOk(u) <==> !Overflows(t, fd)) && u.files.Keys == t.files.Keys && u.slots == t.slots
  {
    var u := Close(t, fd).0;
    assert forall f :: f in u.files <==> f in t.files;
    if Overflows(t, fd) { assert !CountOk(u.files[Get(t, fd).file].refcount); }
  }

  lemma CloseSlots<V, F>(t: Table<V, F>, fd: int)
    requires SlotsOk(t)
    ensures SlotsOk(Close(t, fd).0)
  {
    var u := Close(t, fd).0;
    assert forall f :: f in u.files <==> f in t.files;
  }

  lemma CloseCounts<V, F>(t: Table<V, F>, initial: map<V, nat>, fd: int)
    requires CountsOk(t, initial) && FilesOk(t) && Get(t, fd).Used? && Get(t, fd).file in t.files && !Overflows(t, fd)
    ensures CountsOk(Close(t, fd).0, initial)
  {
    var f, u := Get(t, fd).file, Close(t, fd).0;
    forall w | w in t.counts ensures u.counts[w] == initial[w] + |LiveOn(u.files, w)| {
      LiveEnd(t.files, f, u.files[f].refcount, w);
    }
  }

  lemma DropKeepsInv<V, F>(t: Table<V, F>, initial: map<V, nat>, fd: int)
    requires Inv(t, initial)
    ensures var u := Drop(t, fd).0;
      Inv(u, initial) && u.files == t.files && u.counts == t.counts && |u.slots| == |t.slots|
  {
  }

  // A successful process_close_fd frees exactly that slot; it is refused for descriptor 0, outside the table, and where
  // there is nothing to close.
  lemma DropFrees<V, F>(t: Table<V, F>, fd: int)
    ensures var (u, code) := Drop(t, fd);
      && (code == 0 <==> 0 < fd < |t.slots| && t.slots[fd].Used?)
      && (code == -EINVAL <==> !(0 < fd < |t.slots|)) && (code == -EBADF <==> 0 < fd < |t.slots| && t.slots[fd].Free?)
      && |u.slots| == |t.slots|
      && forall i :: 0 <= i < |t.slots| ==> u.slots[i] == if code == 0 && i == fd then Free else t.slots[i]
  {
  }

  // vfs_close succeeds for every descriptor that names a file, closed already or not, and otherwise changes nothing.
  lemma CloseAnswers<V, F>(t: Table<V, F>, fd: int)
    ensures var (u, code) := Close(t, fd);
      && (code == 0 <==> 0 < fd < |t.slots| && t.slots[fd].Used?)
      && (code != 0 ==> code == -ENOENT && u == t)
  {
  }

  // ----- runs -----

  // DoMake: a file system makes a vnode, whose count starts at 1.
  datatype Op<V, F> =
    | DoOpen(found: VfsPath.Result<V>, made: F, grant: bool)
    | DoClose(fd: int)
    | DoDrop(fd: int)
    | DoMake(v: V)

  function Do<V, F>(t: Table<V, F>, op: Op<V, F>): Table<V, F>
    requires Allowed(t, op)
  {
    match op
    case DoOpen(found, made, grant) => Open(t, found, made, grant).0
    case DoClose(fd) => Close(t, fd).0
    case DoDrop(fd) => Drop(t, fd).0
    case DoMake(v) => t.(counts := t.counts[v := 1])
  }

  // kmalloc returns a file or vnode not handed out before, and vfs_lookup a known vnode.
  predicate Allowed<V, F>(t: Table<V, F>, op: Op<V, F>) {
    match op
    case DoOpen(found, made, _) => made !in t.files && if found.Ok? then found.value in t.counts else found.code < 0
    case DoMake(v) => v !in t.counts
    case _ => true
  }

  // u is what t becomes by the operations in turn.
  ghost predicate Runs<V, F>(t: Table<V, F>, ops: seq<Op<V, F>>, u: Table<V, F>)
    decreases |ops|
  {
    if ops == [] then u == t
    else Allowed(t, ops[0]) && Runs(Do(t, ops[0]), ops[1..], u)
  }

  function One(b: bool): nat {
    if b then 1 else 0
  }

  // The count each vnode starts with.
  function BornBy<V, F>(initial: map<V, nat>, op: Op<V, F>): map<V, nat> {
    if op.DoMake? then initial[op.v := 1] else initial
  }

  function Born<V, F>(initial: map<V, nat>, ops: seq<Op<V, F>>): map<V, nat>
    decreases |ops|
  {
    if ops == [] then initial else Born(BornBy(initial, ops[0]), ops[1..])
  }

  lemma MakeKeepsInv<V, F>(t: Table<V, F>, initial: map<V, nat>, v: V)
    requires Inv(t, initial) && v !in t.counts
    ensures Inv(t.(counts := t.counts[v := 1]), initial[v := 1])
  {
    assert LiveOn(t.files, v) == {};
  }

  // The operation takes no count past its width.
  predicate Fits<V, F>(t: Table<V, F>, op: Op<V, F>)
    requires Allowed(t, op)
  {
    match op
    case DoOpen(found, made, grant) => Open(t, found, made, grant).1 < 0 || !Wraps(t, found.value)
    case DoClose(fd) => !Overflows(t, fd)
    case _ => true
  }

  lemma DoKeepsInv<V, F>(t: Table<V, F>, op: Op<V, F>, initial: map<V, nat>)
    requires Inv(t, initial) && Allowed(t, op)
    ensures (Inv(Do(t, op), BornBy(initial, op)) <==> Fits(t, op)) && |Do(t, op).slots| == |t.slots|
  {
    hide Inv, Overflows, Wraps, Open, Close, Drop;
    match op
    case DoOpen(found, made, grant) => OpenKeepsInv(t, initial, found, made, grant);
    case DoClose(fd) => CloseKeepsInv(t, initial, fd);
    case DoDrop(fd) => DropKeepsInv(t, initial, fd);
    case DoMake(v) => MakeKeepsInv(t, initial, v);
  }

  // No operation of the run takes a count past its width.
  predicate AllFit<V, F>(t: Table<V, F>, ops: seq<Op<V, F>>)
    decreases |ops|
  {
    ops == [] || (Allowed(t, ops[0]) && Fits(t, ops[0]) && AllFit(Do(t, ops[0]), ops[1..]))
  }

  // The invariant holds after each operation of the run.
  ghost predicate Throughout<V, F>(t: Table<V, F>, ops: seq<Op<V, F>>, initial: map<V, nat>)
    decreases |ops|
  {
    Inv(t, initial) &&
    (ops == [] || (Allowed(t, ops[0]) && Throughout(Do(t, ops[0]), ops[1..], BornBy(initial, ops[0]))))
  }

  // The invariant holds throughout a run if and only if none of its operations takes a count past its width.
  lemma {:induction false} RunKeepsInv<V, F>(t: Table<V, F>, ops: seq<Op<V, F>>, u: Table<V, F>, initial: map<V, nat>)
    requires Inv(t, initial) && Runs(t, ops, u)
    ensures Throughout(t, ops, initial) <==> AllFit(t, ops)
    ensures AllFit(t, ops) ==> Inv(u, Born(initial, ops)) && |u.slots| == |t.slots|
    decreases |ops|
  {
    hide Inv, Do, Allowed, BornBy, Fits;
    if ops != [] {
      DoKeepsInv(t, ops[0], initial);
      if Fits(t, ops[0]) { RunKeepsInv(Do(t, ops[0]), ops[1..], u, BornBy(initial, ops[0])); }
    }
  }

  // From a process without files: after any run in which no count passes its width, every vnode's count is the one it
  // started with plus the number of files on it that are still open, and distinct occupied slots name distinct files.
  lemma ReferencesConserved<V, F>(ops: seq<Op<V, F>>, u: Table<V, F>, initial: map<V, nat>)
    requires Runs(NoFiles(initial), ops, u) && AllFit(NoFiles(initial), ops)
    ensures u.counts.Keys == Born(initial, ops).Keys
    ensures forall v :: v in u.counts ==> u.counts[v] == Born(initial, ops)[v] + |LiveOn(u.files, v)|
    ensures forall i, j :: 0 <= i < |u.slots| && 0 <= j < |u.slots| && i != j && u.slots[i].Used? ==>
      u.slots[i] != u.slots[j]
    ensures |u.slots| == OPEN_MAX
  {
    NoFilesInv<V, F>(initial);
    RunKeepsInv(NoFiles(initial), ops, u, initial);
  }

  function NoFiles<V, F>(counts: map<V, nat>): Table<V, F> {
    Table(seq(OPEN_MAX, _ => Free), map[], counts)
  }

  lemma NoFilesInv<V, F>(counts: map<V, nat>)
    ensures Inv(NoFiles<V, F>(counts), counts)
  {
    assert forall v :: LiveOn<V, F>(map[], v) == {};
  }

  // ----- a bound on the number of calls -----

  function Opens<V, F>(ops: seq<Op<V, F>>): nat {
    if ops == [] then 0 else One(ops[0].DoOpen?) + Opens(ops[1..])
  }

  function Closes<V, F>(ops: seq<Op<V, F>>): nat {
    if ops == [] then 0 else One(ops[0].DoClose?) + Closes(ops[1..])
  }

  // No count of a file is below -n.
  ghost predicate AtLeast<V, F>(t: Table<V, F>, n: nat) {
    forall f :: f in t.files ==> t.files[f].refcount + n >= 0
  }

  lemma CloseAtLeast<V, F>(t: Table<V, F>, fd: int, n: nat)
    requires AtLeast(t, n) && n < -INT_MIN
    ensures AtLeast(Close(t, fd).0, n + 1) && !Overflows(t, fd)
  {
  }

  lemma OpenAtLeast<V, F>(t: Table<V, F>, found: VfsPath.Result<V>, made: F, grant: bool, n: nat)
    requires AtLeast(t, n) && (found.Err? ==> found.code < 0)
    ensures AtLeast(Open(t, found, made, grant).0, n)
  {
  }

  // There is room in every count of a vnode for so many more files.
  ghost predicate Room<V>(initial: map<V, nat>, more: nat) {
    forall v :: v in initial ==> initial[v] + more < SIZE_LIMIT
  }

  lemma RoomFor<V, F>(t: Table<V, F>, initial: map<V, nat>, v: V)
    requires Inv(t, initial) && v in t.counts && Room(initial, |t.files| + 1)
    ensures !Wraps(t, v)
  {
    assert v in initial;
    LiveSize(t.files, v);
  }

  lemma DoFits<V, F>(t: Table<V, F>, op: Op<V, F>, initial: map<V, nat>, closes: nat)
    requires Inv(t, initial) && Allowed(t, op) && AtLeast(t, closes)
    requires op.DoOpen? ==> Room(initial, |t.files| + 1)
    requires op.DoClose? ==> closes < -INT_MIN
    ensures var u := Do(t, op);
      Fits(t, op) && AtLeast(u, closes + One(op.DoClose?)) && |u.files| <= |t.files| + One(op.DoOpen?)
  {
    match op
    case DoOpen(found, made, grant) =>
      if found.Ok? { RoomFor(t, initial, found.value); }
      hide Inv, AtLeast, Wraps;
      OpenAtLeast(t, found, made, grant, closes);
    case DoClose(fd) =>
      CloseFiles(t, fd);
      hide Inv, AtLeast;
      CloseAtLeast(t, fd, closes);
      assert |Close(t, fd).0.files.Keys| == |t.files.Keys|;
    case _ =>
  }

  // What the rest of a run may count on.
  ghost predicate Ahead<V, F>(t: Table<V, F>, ops: seq<Op<V, F>>, initial: map<V, nat>, closes: nat) {
    && Inv(t, initial) && AtLeast(t, closes) && closes + Closes(ops) <= -INT_MIN
    && Room(initial, |t.files| + Opens(ops)) && 1 + |t.files| + Opens(ops) < SIZE_LIMIT
  }

  lemma RoomBorn<V, F>(initial: map<V, nat>, op: Op<V, F>, files: nat, more: nat, opens: nat)
    requires Room(initial, files + One(op.DoOpen?) + opens) && 1 + files + One(op.DoOpen?) + opens < SIZE_LIMIT
    requires more <= files + One(op.DoOpen?)
    ensures Room(BornBy(initial, op), more + opens) && (op.DoOpen? ==> Room(initial, files + 1))
  {
  }

  lemma DoAhead<V, F>(t: Table<V, F>, ops: seq<Op<V, F>>, initial: map<V, nat>, closes: nat)
    requires ops != [] && Ahead(t, ops, initial, closes) && Allowed(t, ops[0])
    ensures Fits(t, ops[0])
    ensures Ahead(Do(t, ops[0]), ops[1..], BornBy(initial, ops[0]), closes + One(ops[0].DoClose?))
  {
    var op := ops[0];
    RoomBorn(initial, op, |t.files|, |t.files|, Opens(ops[1..]));
    hide Inv, AtLeast, Do, Allowed, Room, BornBy, Fits;
    DoFits(t, op, initial, closes);
    DoKeepsInv(t, op, initial);
    RoomBorn(initial, op, |t.files|, |Do(t, op).files|, Opens(ops[1..]));
  }

  lemma {:induction false} AheadFits<V, F>(t: Table<V, F>, ops: seq<Op<V, F>>, u: Table<V, F>,
                                           initial: map<V, nat>, closes: nat)
    requires Runs(t, ops, u) && Ahead(t, ops, initial, closes)
    ensures AllFit(t, ops)
    decreases |ops|
  {
    if ops != [] {
      DoAhead(t, ops, initial, closes);
      hide Ahead, Inv, Do, Allowed, BornBy, Fits;
      AheadFits(Do(t, ops[0]), ops[1..], u, BornBy(initial, ops[0]), closes + One(ops[0].DoClose?));
    }
  }

  // A run of at most 2^31 closes, and of no more opens than every vnode's count has room for, takes no count past its
  // width.
  lemma FewCallsFit<V, F>(ops: seq<Op<V, F>>, u: Table<V, F>, initial: map<V, nat>)
    requires Runs(NoFiles(initial), ops, u)
    requires Room(initial, Opens(ops)) && 1 + Opens(ops) < SIZE_LIMIT && Closes(ops) <= -INT_MIN
    ensures AllFit(NoFiles(initial), ops)
  {
    NoFilesInv<V, F>(initial);
    AheadFits(NoFiles(initial), ops, u, initial, 0);
  }

  // ----- one file closed many times -----

  function CloseTimes<V, F>(t: Table<V, F>, fd: int, n: nat): Table<V, F> {
    if n == 0 then t else Close(CloseTimes(t, fd, n - 1), fd).0
  }

  // n closes of one descriptor take the count of its file to -n.
  lemma {:induction false} ClosedTimes<V, F>(t: Table<V, F>, fd: int, n: nat)
    requires Get(t, fd).Used? && LiveIn(t, Get(t, fd).file) && t.files[Get(t, fd).file].refcount == 1
    requires 0 < n <= -INT_MIN
    ensures var u := CloseTimes(t, fd, n);
      Get(u, fd) == Get(t, fd) && Get(t, fd).file in u.files && u.files[Get(t, fd).file].refcount + n == 0
  {
    if n == 1 {
      assert CloseTimes(t, fd, 0) == t;
    } else {
      ClosedTimes(t, fd, n - 1);
    }
  }

  // The close after 2^31 of them makes a file count as open whose vnode has been released.
  lemma CloseOverflows<V, F>(t: Table<V, F>, fd: int)
    requires Get(t, fd).Used? && LiveIn(t, Get(t, fd).file) && t.files[Get(t, fd).file].refcount == 1
    ensures var u := CloseTimes(t, fd, 0x8000_0000);
      Overflows(u, fd) && !LiveIn(u, Get(t, fd).file) && LiveIn(Close(u, fd).0, Get(t, fd).file)
  {
    ClosedTimes(t, fd, 0x8000_0000);
    hide CloseTimes;
  }

  // Closing one descriptor twice releases the vnode once: the second call changes no count and no slot, and leaves
  // the same files open.
  lemma CloseTwice<V, F>(t: Table<V, F>, initial: map<V, nat>, fd: int)
    requires Inv(t, initial) && !Overflows(t, fd) && !Overflows(Close(t, fd).0, fd)
    ensures var u := Close(t, fd).0; var w := Close(u, fd).0;
      && w.counts == u.counts && w.slots == t.slots && (forall f :: LiveIn(u, f) <==> LiveIn(w, f))
      && Close(u, fd).1 == Close(t, fd).1
  {
    var u := Close(t, fd).0;
    if Get(t, fd).Used? {
      assert Get(t, fd).file in t.files && CountOk(t.files[Get(t, fd).file].refcount);
      assert Get(u, fd) == Get(t, fd) && u.files[Get(t, fd).file].refcount < 0;
      hide Inv;
      CloseAgain(u, fd);
    }
  }

  lemma CloseAgain<V, F>(t: Table<V, F>, fd: int)
    requires Get(t, fd).Used? && Get(t, fd).file in t.files
    requires INT_MIN < t.files[Get(t, fd).file].refcount < 0
    ensures var u := Close(t, fd).0;
      u.counts == t.counts && u.slots == t.slots && forall f :: LiveIn(t, f) <==> LiveIn(u, f)
  {
  }

  predicate LiveIn<V, F>(t: Table<V, F>, f: F) {
    f in t.files && t.files[f].refcount > 0
  }

  // The first close of an open file takes its vnode's count down by one.
  lemma CloseReleases<V, F>(t: Table<V, F>, initial: map<V, nat>, fd: int)
    requires Inv(t, initial) && Get(t, fd).Used? && LiveIn(t, Get(t, fd).file)
    ensures var v := t.files[Get(t, fd).file].node; var (u, code) := Close(t, fd);
      code == 0 && t.counts[v] > 0 && u.counts == t.counts[v := t.counts[v] - 1] && !LiveIn(u, Get(t, fd).file)
  {
    var f := Get(t, fd).file;
    assert f in LiveOn(t.files, t.files[f].node);
  }

  // ----- descriptor 0 -----

  // What vfs_open returns can be used exactly when slot 0 was taken; otherwise it is descriptor 0, which no call
  // accepts.
  lemma OpenedIsUsable<V, F>(t: Table<V, F>, found: VfsPath.Result<V>, made: F, grant: bool)
    requires |t.slots| == OPEN_MAX && (found.Err? ==> found.code < 0)
    ensures var (u, fd) := Open(t, found, made, grant);
      fd >= 0 ==>
        && (Get(u, fd) == Used(made) <==> t.slots[0].Used?)
        && (fd == 0 <==> t.slots[0].Free?)
        && (fd == 0 ==> u.slots[0] == Used(made) && Close(u, fd) == (u, -ENOENT) && Drop(u, fd) == (u, -EINVAL))
  {
  }

  lemma DoKeepsSlotZero<V, F>(t: Table<V, F>, op: Op<V, F>, f: F)
    requires SlotsOk(t) && Allowed(t, op) && |t.slots| > 0 && t.slots[0] == Used(f)
    ensures var u := Do(t, op);
      SlotsOk(u) && |u.slots| > 0 && u.slots[0] == Used(f) && f in u.files && u.files[f] == t.files[f]
  {
    match op
    case DoOpen(found, made, grant) =>
      var fd := OpenCode(t, found, grant);
      if fd >= 0 { OpenedSlots(t, fd, made, found.value); }
    case DoClose(fd) =>
      CloseSlots(t, fd);
      if Get(t, fd).Used? { assert t.slots[0] != t.slots[fd]; }
    case _ =>
  }

  // The file in slot 0 stays there as it is, whatever is opened, closed or dropped.
  lemma {:induction false} SlotZeroStays<V, F>(t: Table<V, F>, ops: seq<Op<V, F>>, u: Table<V, F>, f: F)
    requires SlotsOk(t) && Runs(t, ops, u) && |t.slots| > 0 && t.slots[0] == Used(f)
    ensures |u.slots| > 0 && u.slots[0] == Used(f) && f in t.files && f in u.files && u.files[f] == t.files[f]
    decreases |ops|
  {
    if ops != [] {
      DoKeepsSlotZero(t, ops[0], f);
      hide SlotsOk, Do, Allowed;
      SlotZeroStays(Do(t, ops[0]), ops[1..], u, f);
    }
  }

  // The file that the first vfs_open of a process makes stays open, whatever is called afterwards, and as long as no
  // count passes its width, that of its vnode stays above what it was.
  lemma FirstOpenLeaks<V, F>(v: V, made: F, ops: seq<Op<V, F>>, u: Table<V, F>, initial: map<V, nat>)
    requires v in initial && Runs(Open(NoFiles(initial), VfsPath.Ok(v), made, true).0, ops, u)
    ensures Open(NoFiles(initial), VfsPath.Ok(v), made, true).1 == 0
    ensures made in u.files && u.files[made] == Rec(v, 1)
    ensures AllFit(NoFiles(initial), [DoOpen(VfsPath.Ok(v), made, true)] + ops) ==>
      v in u.counts && u.counts[v] > initial[v]
  {
    var t, op := NoFiles<V, F>(initial), DoOpen(VfsPath.Ok(v), made, true);
    var t1 := Do(t, op);
    assert t1.slots[0] == Used(made) && t1.files == map[made := Rec(v, 1)] && t1.counts.Keys == initial.Keys;
    NoFilesInv<V, F>(initial);
    OpenedSlots(t, 0, made, v);
    assert ([op] + ops)[1..] == ops;
    hide Open, Born, LiveOn;
    SlotZeroStays(t1, ops, u, made);
    if AllFit(t, [op] + ops) {
      RunKeepsInv(t, [op] + ops, u, initial);
      BornKeeps(t1, ops, u, initial, v);
      LiveHas(u.files, made);
    }
  }

  lemma LiveHas<V, F>(files: map<F, Rec<V>>, f: F)
    requires f in files && files[f].refcount > 0
    ensures |LiveOn(files, files[f].node)| > 0
  {
    assert f in LiveOn(files, files[f].node);
  }

  lemma {:induction false} BornKeeps<V, F>(t: Table<V, F>, ops: seq<Op<V, F>>, u: Table<V, F>, initial: map<V, nat>,
                                           v: V)
    requires Runs(t, ops, u) && v in initial && t.counts.Keys == initial.Keys
    ensures v in Born(initial, ops) && Born(initial, ops)[v] == initial[v] && u.counts.Keys == Born(initial, ops).Keys
    decreases |ops|
  {
    if ops != [] {
      assert ops[0].DoMake? ==> ops[0].v !in initial;
      var next := BornBy(initial, ops[0]);
      CountsKeys(t, ops[0]);
      assert Do(t, ops[0]).counts.Keys == next.Keys;
      hide Do, Allowed;
      BornKeeps(Do(t, ops[0]), ops[1..], u, next, v);
    }
  }

  lemma CountsKeys<V, F>(t: Table<V, F>, op: Op<V, F>)
    requires Allowed(t, op)
    ensures Do(t, op).counts.Keys == t.counts.Keys + if op.DoMake? then {op.v} else {}
  {
  }
}
