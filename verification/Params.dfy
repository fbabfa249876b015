/** Kernel parameters: their layout, packing the arguments into a blob, and loading them back. */
module Params {
  import opened Options
  import opened Words
  import opened GlobalMemory

  datatype ParamType = U32 | U64

  function SizeOf(t: ParamType): (n: nat)
    ensures n > 0
  {
    match t case U32 => 4 case U64 => 8
  }

  /** The alignment of a parameter is its size. */
  datatype Param = Param(name: string, ty: ParamType, offset: nat)

  datatype Decl = Decl(name: string, ty: ParamType)

  function EndOf(p: Param): nat {
    p.offset + SizeOf(p.ty)
  }

  /** The end of the furthest field, both for the next offset and for the size of the blob. */
  function MaxEnd(layout: seq<Param>): (e: nat)
    ensures forall i :: 0 <= i < |layout| ==> EndOf(layout[i]) <= e
  {
    if layout == [] then 0
    else
      var e, last := MaxEnd(layout[..|layout| - 1]), EndOf(layout[|layout| - 1]);
      if last > e then last else e
  }

  // ---- Layout ----

  /** Fields are naturally aligned, keep the order of the declarations and do not overlap. */
  ghost predicate WellPlaced(layout: seq<Param>) {
    && (forall i :: 0 <= i < |layout| ==> layout[i].offset % SizeOf(layout[i].ty) == 0)
    && forall i, j :: 0 <= i < j < |layout| ==> EndOf(layout[i]) <= layout[j].offset
  }

  /** No field starts later than its alignment requires. */
  ghost predicate Tight(layout: seq<Param>) {
    forall i :: 0 <= i < |layout| ==> TightAt(layout, i)
  }

  predicate TightAt(layout: seq<Param>, i: nat)
    requires i < |layout|
  {
    layout[i].offset < (if i == 0 then 0 else EndOf(layout[i - 1])) + SizeOf(layout[i].ty)
  }

  /** The furthest end of the fields so far. */
  method FurthestEnd(layout: seq<Param>) returns (size: nat)
    ensures size == MaxEnd(layout)
  {
    size := 0;
    for i := 0 to |layout|
      invariant size == MaxEnd(layout[..i])
    {
      assert layout[..i + 1][..i] == layout[..i];
      if EndOf(layout[i]) > size { size := EndOf(layout[i]); }
    }
    assert layout[..|layout|] == layout;
  }

  method AssignOffsets(decls: seq<Decl>) returns (layout: seq<Param>)
    ensures |layout| == |decls|
    ensures forall i :: 0 <= i < |decls| ==> layout[i].name == decls[i].name && layout[i].ty == decls[i].ty
    ensures WellPlaced(layout) && Tight(layout)
  {
    layout := [];
    for i := 0 to |decls|
      invariant |layout| == i && WellPlaced(layout) && Tight(layout)
      invariant forall j :: 0 <= j < i ==> layout[j].name == decls[j].name && layout[j].ty == decls[j].ty
    {
      var end := FurthestEnd(layout);
      var p := Param(decls[i].name, decls[i].ty, AlignUp(end, SizeOf(decls[i].ty)));
      PlaceNext(layout, p);
      layout := layout + [p];
    }
  }

  lemma PlaceNext(layout: seq<Param>, p: Param)
    requires WellPlaced(layout) && Tight(layout) && p.offset == AlignUp(MaxEnd(layout), SizeOf(p.ty))
    ensures WellPlaced(layout + [p]) && Tight(layout + [p])
  {
    MaxEndIsLast(layout);
    var next := layout + [p];
    forall i, j | 0 <= i < j < |next| ensures EndOf(next[i]) <= next[j].offset {
      if j < |layout| { assert EndOf(layout[i]) <= layout[j].offset; }
    }
    forall i | 0 <= i < |next| ensures TightAt(next, i) {
      if i < |layout| { assert TightAt(layout, i); }
    }
  }

  lemma {:induction false} MaxEndIsLast(layout: seq<Param>)
    requires WellPlaced(layout)
    ensures MaxEnd(layout) == if layout == [] then 0 else EndOf(layout[|layout| - 1])
  {
    if layout != [] {
      var rest := layout[..|layout| - 1];
      MaxEndIsLast(rest);
      if rest != [] { assert EndOf(layout[|rest| - 1]) <= layout[|rest|].offset; }
    }
  }

  // ---- Packing ----

  datatype Value = Word32(v: nat) | Word64(v: nat) | Pointer(buffer: string) | Raw(bytes: seq<nat>)

  datatype Arg = Arg(name: string, value: Value)

  datatype PackError = UnknownArg | TypeMismatch | BufferNotFound | SizeMismatch | MissingArg

  /** A parameter name stands for its first declaration. */
  function Lookup(layout: seq<Param>, name: string): (p: Option<Param>)
    ensures p.Some? ==> p.value in layout && p.value.name == name
    ensures p.None? ==> forall i :: 0 <= i < |layout| ==> layout[i].name != name
  {
    if layout == [] then None else if layout[0].name == name then Some(layout[0]) else Lookup(layout[1..], name)
  }

  /** The bytes of an argument in the field `p`. */
  function FieldBytes(p: Param, value: Value, buffers: map<string, nat>): (r: Result)
    ensures r.Bytes? ==> |r.bytes| == SizeOf(p.ty)
  {
    match value
    case Word32(v) => if p.ty != U32 then Error(TypeMismatch) else Bytes(LeBytes(v, 4))
    case Word64(v) => if p.ty != U64 then Error(TypeMismatch) else Bytes(LeBytes(v, 8))
    case Pointer(b) =>
      if p.ty != U64 then Error(TypeMismatch)
      else if b !in buffers then Error(BufferNotFound)
      else Bytes(LeBytes(buffers[b], 8))
    case Raw(bytes) => if |bytes| != SizeOf(p.ty) then Error(SizeMismatch) else Bytes(bytes)
  }

  datatype Result = Bytes(bytes: seq<nat>) | Error(error: PackError)

  function Overwrite(blob: seq<nat>, offset: nat, bytes: seq<nat>): (r: seq<nat>)
    requires offset + |bytes| <= |blob|
    ensures |r| == |blob|
  {
    blob[..offset] + bytes + blob[offset + |bytes|..]
  }

  /** The arguments in turn, in whatever order the caller's table gives them. */
  function Fill(layout: seq<Param>, args: seq<Arg>, buffers: map<string, nat>, blob: seq<nat>): (r: Result)
    requires |blob| == MaxEnd(layout)
    ensures r.Bytes? ==> |r.bytes| == |blob|
    decreases |args|
  {
    if args == [] then Bytes(blob)
    else
      var p := Lookup(layout, args[0].name);
      if p.None? then Error(UnknownArg)
      else match FieldBytes(p.value, args[0].value, buffers)
        case Error(e) => Error(e)
        case Bytes(b) =>
          InBlob(layout, p.value);
          Fill(layout, args[1..], buffers, Overwrite(blob, p.value.offset, b))
  }

  lemma InBlob(layout: seq<Param>, p: Param)
    requires p in layout
    ensures EndOf(p) <= MaxEnd(layout)
  {
  }

  predicate HasArg(args: seq<Arg>, name: string) {
    exists i :: 0 <= i < |args| && args[i].name == name
  }

  predicate Complete(layout: seq<Param>, args: seq<Arg>) {
    forall i :: 0 <= i < |layout| ==> HasArg(args, layout[i].name)
  }

  function Zeros(n: nat): (r: seq<nat>)
    ensures |r| == n
  {
    seq<nat>(n, _ => 0)
  }

  function Pack(layout: seq<Param>, args: seq<Arg>, buffers: map<string, nat>): (r: Result)
    ensures r.Bytes? ==> |r.bytes| == MaxEnd(layout)
  {
    var r := Fill(layout, args, buffers, Zeros(MaxEnd(layout)));
    if r.Bytes? && !Complete(layout, args) then Error(MissingArg) else r
  }

  /** One byte of the value after the other; a write past the end of the blob is refused. */
  method WriteLe(blob: array<nat>, offset: nat, v: nat, size: nat) returns (ok: bool)
    modifies blob
    ensures ok <==> offset + size <= blob.Length
    ensures blob[..] == if ok then Overwrite(old(blob[..]), offset, LeBytes(v, size)) else old(blob[..])
  {
    if offset + size > blob.Length { return false; }
    for b := 0 to size
      invariant forall i :: 0 <= i < blob.Length ==>
                  blob[i] == if offset <= i < offset + b then Shifted(v, i - offset) % 256 else old(blob[i])
    {
      blob[offset + b] := Shifted(v, b) % 256;
    }
    ghost var r := Overwrite(old(blob[..]), offset, LeBytes(v, size));
    forall i | 0 <= i < blob.Length ensures blob[i] == r[i] {
      if offset <= i < offset + size { LeBytesAt(v, size, i - offset); }
    }
    return true;
  }

  method WriteBytes(blob: array<nat>, offset: nat, bytes: seq<nat>) returns (ok: bool)
    modifies blob
    ensures ok <==> offset + |bytes| <= blob.Length
    ensures blob[..] == if ok then Overwrite(old(blob[..]), offset, bytes) else old(blob[..])
  {
    if offset + |bytes| > blob.Length { return false; }
    for i := 0 to |bytes|
      invariant forall k :: 0 <= k < blob.Length ==>
                  blob[k] == if offset <= k < offset + i then bytes[k - offset] else old(blob[k])
    {
      blob[offset + i] := bytes[i];
    }
    return true;
  }

  /** The argument's turn: check it against its field, which lies in the blob, and write it there. */
  method PackOne(blob: array<nat>, p: Param, value: Value, buffers: map<string, nat>) returns (error: Option<PackError>)
    requires EndOf(p) <= blob.Length
    modifies blob
    ensures match FieldBytes(p, value, buffers)
            case Error(e) => error == Some(e)
            case Bytes(b) => error == None && blob[..] == Overwrite(old(blob[..]), p.offset, b)
  {
    var ok;
    match value {
      case Word32(v) =>
        if p.ty != U32 { return Some(TypeMismatch); }
        ok := WriteLe(blob, p.offset, v, 4);
      case Word64(v) =>
        if p.ty != U64 { return Some(TypeMismatch); }
        ok := WriteLe(blob, p.offset, v, 8);
      case Pointer(b) =>
        if p.ty != U64 { return Some(TypeMismatch); }
        if b !in buffers { return Some(BufferNotFound); }
        ok := WriteLe(blob, p.offset, buffers[b], 8);
      case Raw(bytes) =>
        if |bytes| != SizeOf(p.ty) { return Some(SizeMismatch); }
        ok := WriteBytes(blob, p.offset, bytes);
    }
    error := None;
  }

  /** The arguments one after the other. */
  method PackAll(layout: seq<Param>, args: seq<Arg>, buffers: map<string, nat>, blob: array<nat>)
    returns (error: Option<PackError>)
    requires blob.Length == MaxEnd(layout)
    modifies blob
    ensures Fill(layout, args, buffers, old(blob[..])) ==
            if error.Some? then Error(error.value) else Bytes(blob[..])
  {
    for i := 0 to |args|
      invariant Fill(layout, args[i..], buffers, blob[..]) == Fill(layout, args, buffers, old(blob[..]))
    {
      assert args[i..][1..] == args[i + 1..];
      var p := Lookup(layout, args[i].name);
      if p.None? { return Some(UnknownArg); }
      InBlob(layout, p.value);
      error := PackOne(blob, p.value, args[i].value, buffers);
      if error.Some? { return; }
    }
    error := None;
  }

  method PackKernelArgs(layout: seq<Param>, args: seq<Arg>, buffers: map<string, nat>)
    returns (blob: array<nat>, error: Option<PackError>)
    ensures Pack(layout, args, buffers) == if error.Some? then Error(error.value) else Bytes(blob[..])
  {
    var size := FurthestEnd(layout);
    blob := new nat[size](_ => 0);
    assert blob[..] == Zeros(size);
    error := PackAll(layout, args, buffers, blob);
    if error.Some? { return; }
    for i := 0 to |layout|
      invariant forall j :: 0 <= j < i ==> HasArg(args, layout[j].name)
    {
      if !HasArg(args, layout[i].name) { return blob, Some(MissingArg); }
    }
  }

  // ---- Loading a parameter ----

  function ReadParam(layout: seq<Param>, blob: seq<nat>, name: string, size: nat): Option<seq<nat>> {
    var p := Lookup(layout, name);
    if p.None? || p.value.offset + size > |blob| then None
    else Some(blob[p.value.offset..p.value.offset + size])
  }

  /** `p` is a field of the layout, and no field before it has its name. */
  ghost predicate Declares(layout: seq<Param>, p: Param) {
    exists i :: 0 <= i < |layout| && layout[i] == p && forall j :: 0 <= j < i ==> layout[j].name != p.name
  }

  ghost predicate DistinctArgs(args: seq<Arg>) {
    forall i, j :: 0 <= i < j < |args| ==> args[i].name != args[j].name
  }

  /** A name stands for its first declaration. */
  lemma {:induction false} LookupFinds(layout: seq<Param>, p: Param)
    requires Declares(layout, p)
    ensures p in layout && Lookup(layout, p.name) == Some(p)
  {
    var i :| 0 <= i < |layout| && layout[i] == p && forall j :: 0 <= j < i ==> layout[j].name != p.name;
    if i > 0 {
      assert layout[1..][i - 1] == p && forall j :: 0 <= j < i - 1 ==> layout[1..][j] == layout[j + 1];
      LookupFinds(layout[1..], p);
    }
  }

  function Field(blob: seq<nat>, p: Param): seq<nat>
    requires EndOf(p) <= |blob|
  {
    blob[p.offset..EndOf(p)]
  }

  lemma OtherField(layout: seq<Param>, blob: seq<nat>, p: Param, q: Param, bytes: seq<nat>)
    requires WellPlaced(layout) && p in layout && q in layout && p != q && |blob| == MaxEnd(layout)
    requires |bytes| == SizeOf(q.ty)
    ensures EndOf(p) <= |blob| && EndOf(q) <= |blob|
    ensures Field(Overwrite(blob, q.offset, bytes), p) == Field(blob, p)
  {
    InBlob(layout, p);
    InBlob(layout, q);
    var i :| 0 <= i < |layout| && layout[i] == p;
    var j :| 0 <= j < |layout| && layout[j] == q;
    assert EndOf(p) <= q.offset || EndOf(q) <= p.offset by { if i < j {} else {} }
    OverwriteOutside(blob, q.offset, bytes, p.offset, EndOf(p));
  }

  lemma OverwriteOutside(blob: seq<nat>, offset: nat, bytes: seq<nat>, lo: nat, hi: nat)
    requires offset + |bytes| <= |blob| && lo <= hi <= |blob|
    requires hi <= offset || offset + |bytes| <= lo
    ensures Overwrite(blob, offset, bytes)[lo..hi] == blob[lo..hi]
  {
  }

  lemma OwnField(layout: seq<Param>, blob: seq<nat>, p: Param, bytes: seq<nat>)
    requires p in layout && |blob| == MaxEnd(layout) && |bytes| == SizeOf(p.ty)
    ensures EndOf(p) <= |blob| && Field(Overwrite(blob, p.offset, bytes), p) == bytes
  {
  }

  /** A field keeps its bytes while arguments of other names are packed. */
  lemma {:induction false} FillKeeps(layout: seq<Param>, args: seq<Arg>, buffers: map<string, nat>, blob: seq<nat>,
                                     p: Param)
    requires WellPlaced(layout) && p in layout && |blob| == MaxEnd(layout) && !HasArg(args, p.name)
    ensures EndOf(p) <= |blob|
    ensures var r := Fill(layout, args, buffers, blob); r.Bytes? ==> Field(r.bytes, p) == Field(blob, p)
    decreases |args|
  {
    InBlob(layout, p);
    if args != [] && Fill(layout, args, buffers, blob).Bytes? {
      var q := Lookup(layout, args[0].name).value;
      var bytes := FieldBytes(q, args[0].value, buffers).bytes;
      assert q != p by { assert args[0].name != p.name; }
      OtherField(layout, blob, p, q, bytes);
      assert !HasArg(args[1..], p.name) by {
        forall i | 0 <= i < |args[1..]| ensures args[1..][i].name != p.name { assert args[i + 1].name != p.name; }
      }
      FillKeeps(layout, args[1..], buffers, Overwrite(blob, q.offset, bytes), p);
    }
  }

  /** Each field ends up with the bytes of its own argument, wherever that stands in the list. */
  lemma {:induction false} FillSets(layout: seq<Param>, args: seq<Arg>, buffers: map<string, nat>, blob: seq<nat>,
                                    p: Param, k: nat)
    requires WellPlaced(layout) && Declares(layout, p) && DistinctArgs(args)
    requires |blob| == MaxEnd(layout) && k < |args| && args[k].name == p.name
    ensures EndOf(p) <= |blob|
    ensures var r := Fill(layout, args, buffers, blob);
      r.Bytes? ==> FieldBytes(p, args[k].value, buffers) == Bytes(Field(r.bytes, p))
    decreases |args|
  {
    LookupFinds(layout, p);
    InBlob(layout, p);
    if Fill(layout, args, buffers, blob).Bytes? {
      var q := Lookup(layout, args[0].name).value;
      var bytes := FieldBytes(q, args[0].value, buffers).bytes;
      var next, rest := Overwrite(blob, q.offset, bytes), args[1..];
      if k == 0 {
        OwnField(layout, blob, p, bytes);
        assert !HasArg(rest, p.name) by {
          forall i | 0 <= i < |rest| ensures rest[i].name != p.name { assert args[i + 1].name != args[0].name; }
        }
        FillKeeps(layout, rest, buffers, next, p);
      } else {
        FillSets(layout, rest, buffers, next, p, k - 1);
      }
    }
  }

  /** The bytes that ld.param reads for `p`. */
  function Loaded(layout: seq<Param>, blob: seq<nat>, p: Param): Result {
    match ReadParam(layout, blob, p.name, SizeOf(p.ty))
    case None => Error(UnknownArg)
    case Some(b) => Bytes(b)
  }

  /**
   * Loading a declared parameter gives exactly the bytes of the argument of that name,
   * wherever that argument stands.
   */
  lemma LoadsArgument(layout: seq<Param>, args: seq<Arg>, buffers: map<string, nat>, p: Param, k: nat)
    requires WellPlaced(layout) && Declares(layout, p) && DistinctArgs(args)
    requires k < |args| && args[k].name == p.name && Pack(layout, args, buffers).Bytes?
    ensures Loaded(layout, Pack(layout, args, buffers).bytes, p) == FieldBytes(p, args[k].value, buffers)
  {
    FillSets(layout, args, buffers, Zeros(MaxEnd(layout)), p, k);
    LoadsField(layout, Pack(layout, args, buffers).bytes, p);
  }

  lemma LoadsField(layout: seq<Param>, blob: seq<nat>, p: Param)
    requires Declares(layout, p) && |blob| == MaxEnd(layout)
    ensures EndOf(p) <= |blob| && Loaded(layout, blob, p) == Bytes(Field(blob, p))
  {
    LookupFinds(layout, p);
  }

  /** Packing succeeds only if every parameter has an argument. */
  lemma EveryParamHasArg(layout: seq<Param>, args: seq<Arg>, buffers: map<string, nat>, p: Param) returns (k: nat)
    requires p in layout && Pack(layout, args, buffers).Bytes?
    ensures k < |args| && args[k].name == p.name
  {
    var i :| 0 <= i < |layout| && layout[i] == p;
    assert HasArg(args, layout[i].name);
    k :| k < |args| && args[k].name == p.name;
  }

  /**
   * A 32-bit argument is loaded modulo 2^32, a 64-bit argument and the address of a device
   * buffer modulo 2^64, and raw bytes as they are.
   */
  lemma LoadsWord(layout: seq<Param>, args: seq<Arg>, buffers: map<string, nat>, p: Param, k: nat)
    requires WellPlaced(layout) && Declares(layout, p) && DistinctArgs(args)
    requires k < |args| && args[k].name == p.name && Pack(layout, args, buffers).Bytes?
    ensures var loaded := ReadParam(layout, Pack(layout, args, buffers).bytes, p.name, SizeOf(p.ty));
      && loaded.Some?
      && (args[k].value.Word32? ==> FromLe(loaded.value) == Low32(args[k].value.v))
      && (args[k].value.Word64? ==> FromLe(loaded.value) == Low64(args[k].value.v))
      && (args[k].value.Pointer? ==>
            args[k].value.buffer in buffers && FromLe(loaded.value) == Low64(buffers[args[k].value.buffer]))
      && (args[k].value.Raw? ==> loaded.value == args[k].value.bytes)
  {
    LoadsArgument(layout, args, buffers, p, k);
    LookupFinds(layout, p);
    WordSizes();
    match args[k].value
    case Word32(v) =>
      BytesRoundTrip(v, 4);
    case Word64(v) =>
      BytesRoundTrip(v, 8);
    case Pointer(b) =>
      BytesRoundTrip(buffers[b], 8);
    case Raw(bytes) =>
  }

  /** The first four bytes of a 64-bit argument are its lower word. */
  lemma LoadsLowerWord(layout: seq<Param>, args: seq<Arg>, buffers: map<string, nat>, p: Param, k: nat)
    requires WellPlaced(layout) && Declares(layout, p) && DistinctArgs(args)
    requires k < |args| && args[k].name == p.name && args[k].value.Word64?
    requires Pack(layout, args, buffers).Bytes?
    ensures var loaded := ReadParam(layout, Pack(layout, args, buffers).bytes, p.name, 4);
      loaded.Some? && FromLe(loaded.value) == Low32(args[k].value.v)
  {
    LoadsArgument(layout, args, buffers, p, k);
    LoadsField(layout, Pack(layout, args, buffers).bytes, p);
    LoadsStart(layout, Pack(layout, args, buffers).bytes, p, 4);
    LowerWord(args[k].value.v);
  }

  lemma LoadsStart(layout: seq<Param>, blob: seq<nat>, p: Param, size: nat)
    requires Declares(layout, p) && |blob| == MaxEnd(layout) && size <= SizeOf(p.ty)
    ensures EndOf(p) <= |blob| && ReadParam(layout, blob, p.name, size) == Some(Field(blob, p)[..size])
  {
    LookupFinds(layout, p);
    InBlob(layout, p);
    StartOfSlice(blob, p.offset, EndOf(p), size);
  }

  lemma StartOfSlice(s: seq<nat>, lo: nat, hi: nat, n: nat)
    requires lo + n <= hi <= |s|
    ensures s[lo..hi][..n] == s[lo..lo + n]
  {
  }

  lemma LowerWord(v: nat)
    ensures FromLe(LeBytes(v, 8)[..4]) == Low32(v)
  {
    LowerBytes(v, 4, 8);
    BytesRoundTrip(v, 4);
    WordSizes();
  }

  // ---- Arguments that are refused ----

  /** Which argument is refused by a field, and why. */
  lemma RefusedArguments(p: Param, value: Value, buffers: map<string, nat>)
    ensures var r, n := FieldBytes(p, value, buffers), SizeOf(p.ty);
      && (r == Error(TypeMismatch) <==> (value.Word32? && n != 4) || ((value.Word64? || value.Pointer?) && n != 8))
      && (r == Error(BufferNotFound) <==> value.Pointer? && n == 8 && value.buffer !in buffers)
      && (r == Error(SizeMismatch) <==> value.Raw? && |value.bytes| != n)
      && (r.Error? ==> r.error in {TypeMismatch, BufferNotFound, SizeMismatch})
  {
  }

  /** The argument at `i` names no parameter, or its field refuses it with this error. */
  predicate FailsWith(layout: seq<Param>, a: Arg, buffers: map<string, nat>, e: PackError) {
    if forall i :: 0 <= i < |layout| ==> layout[i].name != a.name then e == UnknownArg
    else
      var p := Lookup(layout, a.name);
      p.Some? && FieldBytes(p.value, a.value, buffers) == Error(e)
  }

  lemma {:induction false} FirstFailure(layout: seq<Param>, args: seq<Arg>, buffers: map<string, nat>, blob: seq<nat>)
    returns (i: nat)
    requires |blob| == MaxEnd(layout) && Fill(layout, args, buffers, blob).Error?
    ensures i < |args| && FailsWith(layout, args[i], buffers, Fill(layout, args, buffers, blob).error)
    ensures forall j :: 0 <= j < i ==> Accepts(layout, args[j], buffers)
    decreases |args|
  {
    i := 0;
    if Accepts(layout, args[0], buffers) {
      var p := Lookup(layout, args[0].name).value;
      InBlob(layout, p);
      i := FirstFailure(layout, args[1..], buffers,
                        Overwrite(blob, p.offset, FieldBytes(p, args[0].value, buffers).bytes));
      i := i + 1;
      assert args[i] == args[1..][i - 1];
      assert forall j :: 1 <= j < i ==> args[j] == args[1..][j - 1];
    }
  }

  /** Packing fails with the error of the first argument that is refused, or at last for a missing one. */
  lemma PackFailure(layout: seq<Param>, args: seq<Arg>, buffers: map<string, nat>)
    requires Pack(layout, args, buffers).Error?
    ensures var e := Pack(layout, args, buffers).error;
      if forall i :: 0 <= i < |args| ==> Accepts(layout, args[i], buffers)
      then e == MissingArg && exists i :: 0 <= i < |layout| && !HasArg(args, layout[i].name)
      else exists i :: 0 <= i < |args| && FailsWith(layout, args[i], buffers, e)
                       && forall j :: 0 <= j < i ==> Accepts(layout, args[j], buffers)
  {
    FillAccepts(layout, args, buffers, Zeros(MaxEnd(layout)));
    if Fill(layout, args, buffers, Zeros(MaxEnd(layout))).Error? {
      var i := FirstFailure(layout, args, buffers, Zeros(MaxEnd(layout)));
    }
  }

  predicate InField(p: Param, x: nat) {
    p.offset <= x < EndOf(p)
  }

  lemma {:induction false} FillKeepsPadding(layout: seq<Param>, args: seq<Arg>, buffers: map<string, nat>,
                                            blob: seq<nat>, x: nat)
    requires |blob| == MaxEnd(layout) && x < |blob|
    requires forall i :: 0 <= i < |layout| ==> !InField(layout[i], x)
    ensures var r := Fill(layout, args, buffers, blob); r.Bytes? ==> r.bytes[x] == blob[x]
    decreases |args|
  {
    if args != [] && Accepts(layout, args[0], buffers) {
      var p := Lookup(layout, args[0].name).value;
      InBlob(layout, p);
      assert !InField(p, x);
      FillKeepsPadding(layout, args[1..], buffers,
                       Overwrite(blob, p.offset, FieldBytes(p, args[0].value, buffers).bytes), x);
    }
  }

  /** Bytes between the fields are zero. */
  lemma PaddingIsZero(layout: seq<Param>, args: seq<Arg>, buffers: map<string, nat>, x: nat)
    requires Pack(layout, args, buffers).Bytes? && x < MaxEnd(layout)
    requires forall i :: 0 <= i < |layout| ==> !InField(layout[i], x)
    ensures Pack(layout, args, buffers).bytes[x] == 0
  {
    FillKeepsPadding(layout, args, buffers, Zeros(MaxEnd(layout)), x);
  }

  // ---- The order of the arguments ----

  predicate Accepts(layout: seq<Param>, a: Arg, buffers: map<string, nat>) {
    var p := Lookup(layout, a.name);
    p.Some? && FieldBytes(p.value, a.value, buffers).Bytes?
  }

  /** Whether packing succeeds depends on each argument alone. */
  lemma {:induction false} FillAccepts(layout: seq<Param>, args: seq<Arg>, buffers: map<string, nat>, blob: seq<nat>)
    requires |blob| == MaxEnd(layout)
    ensures Fill(layout, args, buffers, blob).Bytes? <==>
            forall i :: 0 <= i < |args| ==> Accepts(layout, args[i], buffers)
    decreases |args|
  {
    if args != [] && Accepts(layout, args[0], buffers) {
      var p := Lookup(layout, args[0].name).value;
      InBlob(layout, p);
      FillAccepts(layout, args[1..], buffers,
                  Overwrite(blob, p.offset, FieldBytes(p, args[0].value, buffers).bytes));
      assert forall i :: 1 <= i < |args| ==> args[i] == args[1..][i - 1];
    }
  }

  lemma SameElements(args: seq<Arg>, others: seq<Arg>)
    requires multiset(args) == multiset(others)
    ensures forall a :: a in args <==> a in others
  {
    assert forall a :: a in args <==> a in multiset(args);
  }

  lemma HasArgIn(args: seq<Arg>, others: seq<Arg>, name: string)
    requires (forall a :: a in args ==> a in others) && HasArg(args, name)
    ensures HasArg(others, name)
  {
    var i :| 0 <= i < |args| && args[i].name == name;
    assert args[i] in others;
  }

  lemma PermutedPacks(layout: seq<Param>, args: seq<Arg>, others: seq<Arg>, buffers: map<string, nat>)
    requires multiset(args) == multiset(others) && Pack(layout, args, buffers).Bytes?
    ensures Pack(layout, others, buffers).Bytes?
  {
    SameElements(args, others);
    FillAccepts(layout, args, buffers, Zeros(MaxEnd(layout)));
    FillAccepts(layout, others, buffers, Zeros(MaxEnd(layout)));
    forall i | 0 <= i < |others| ensures Accepts(layout, others[i], buffers) { assert others[i] in args; }
    forall i | 0 <= i < |layout| ensures HasArg(others, layout[i].name) {
      HasArgIn(args, others, layout[i].name);
    }
  }

  /** An element that occurs at two places counts at least twice. */
  lemma CountsTwice(s: seq<Arg>, i: nat, j: nat)
    requires i < j < |s| && s[i] == s[j]
    ensures multiset(s)[s[i]] >= 2
  {
    assert s == s[..j] + [s[j]] + s[j + 1..];
    assert s[..j][i] == s[i];
  }

  lemma CountsOnce(s: seq<Arg>, m: nat)
    requires DistinctArgs(s) && m < |s|
    ensures multiset(s)[s[m]] == 1
  {
    assert s == s[..m] + [s[m]] + s[m + 1..];
    forall i | 0 <= i < m ensures s[..m][i] != s[m] { assert s[i].name != s[m].name; }
    forall i | m < i < |s| ensures s[i] != s[m] { assert s[m].name != s[i].name; }
  }

  lemma PermutedDistinct(args: seq<Arg>, others: seq<Arg>)
    requires multiset(args) == multiset(others) && DistinctArgs(args)
    ensures DistinctArgs(others)
  {
    SameElements(args, others);
    forall i, j | 0 <= i < j < |others| ensures others[i].name != others[j].name {
      assert others[i] in args && others[j] in args;
      var m :| 0 <= m < |args| && args[m] == others[i];
      if others[i] == others[j] {
        CountsTwice(others, i, j);
        CountsOnce(args, m);
      }
    }
  }

  /** The order of the arguments matters neither to the success of packing nor to any load. */
  lemma OrderDoesNotMatter(layout: seq<Param>, args: seq<Arg>, others: seq<Arg>, buffers: map<string, nat>, p: Param)
    requires WellPlaced(layout) && Declares(layout, p) && DistinctArgs(args)
    requires multiset(args) == multiset(others) && Pack(layout, args, buffers).Bytes?
    ensures Pack(layout, others, buffers).Bytes?
    ensures Loaded(layout, Pack(layout, args, buffers).bytes, p) ==
            Loaded(layout, Pack(layout, others, buffers).bytes, p)
  {
    LookupFinds(layout, p);
    PermutedPacks(layout, args, others, buffers);
    PermutedDistinct(args, others);
    var k := EveryParamHasArg(layout, args, buffers, p);
    LoadsArgument(layout, args, buffers, p, k);
    assert args[k] in multiset(others);
    var m :| 0 <= m < |others| && others[m] == args[k];
    LoadsArgument(layout, others, buffers, p, m);
  }
}
