/**
  * The selection transfer between an owner (xcin, driven by doIn) and a requestor (xcout, driven by doOut),
  * as a step system: one requestor window with one property, and one event queue for each side.
  */
module XSelection {
  import opened Bytes

  // ---------------------------------------------------------------- the X server

  datatype Atom = NoType | Incr | Targets | AtomList | Data(id: nat)

  datatype Property = Property(kind: Atom, text: bytes, atoms: seq<Atom>)

  datatype Event =
    | SelectionRequest(target: Atom)
    | SelectionNotify(delivered: bool)
    | PropertyNotify(newValue: bool)
    | SelectionClear
    | OtherEvent

  /** `watched`: the owner asked for property events on the requestor's window. */
  datatype XServer = XServer(property: Option<Property>, ownerQ: seq<Event>, requestorQ: seq<Event>, watched: bool)

  function Tell(x: XServer, e: Event): XServer {
    x.(requestorQ := x.requestorQ + [e], ownerQ := if x.watched then x.ownerQ + [e] else x.ownerQ)
  }

  function ChangeProperty(x: XServer, p: Property): XServer {
    Tell(x.(property := Some(p)), PropertyNotify(true))
  }

  /** Deleting a property that is not there is no event. */
  function DeleteProperty(x: XServer): XServer {
    if x.property.None? then x else Tell(x.(property := None), PropertyNotify(false))
  }

  /** The content that XGetWindowProperty reports. */
  function ReadText(x: XServer): bytes {
    match x.property
    case None => []
    case Some(p) => p.text
  }

  function ReadKind(x: XServer): Atom {
    match x.property
    case None => NoType
    case Some(p) => p.kind
  }

  // ---------------------------------------------------------------- xcin

  datatype OwnerContext = OwnerNone | OwnerIncr

  /** `clear` and `returned` belong to the event loop around xcin. */
  datatype Owner = Owner(context: OwnerContext, pos: nat, clear: bool, returned: bool)

  /** What is offered: the text, the atom of its type, and the largest chunk. */
  datatype Offer = Offer(text: bytes, target: nat, chunk: nat)

  /** The chunk that starts at `pos`; empty at or past the end. */
  function ChunkAt(offer: Offer, pos: nat): bytes {
    if pos >= |offer.text| then []
    else if pos + offer.chunk > |offer.text| then offer.text[pos..]
    else offer.text[pos..pos + offer.chunk]
  }

  /** One call of xcin; the flag is its return value, "transfer complete". */
  function Xcin(offer: Offer, o: Owner, x: XServer, e: Event): (Owner, XServer, bool) {
    match o.context
    case OwnerNone =>
      if !e.SelectionRequest? then (o, x, false)
      else
        var o' := o.(pos := 0);
        var large := |offer.text| > offer.chunk;
        if e.target == Targets then
          var x' := ChangeProperty(x, Property(AtomList, [], [Targets, Data(offer.target)]));
          (o', x'.(requestorQ := x'.requestorQ + [SelectionNotify(true)]), false)
        else if large then
          var x' := ChangeProperty(x, Property(Incr, [], [])).(watched := true);
          (o'.(context := OwnerIncr), x'.(requestorQ := x'.requestorQ + [SelectionNotify(true)]), false)
        else
          var x' := ChangeProperty(x, Property(Data(offer.target), offer.text, []));
          (o', x'.(requestorQ := x'.requestorQ + [SelectionNotify(true)]), true)
    case OwnerIncr =>
      if e != PropertyNotify(false) then (o, x, false)
      else
        var chunk := ChunkAt(offer, o.pos);
        var x' := ChangeProperty(x, Property(Data(offer.target), chunk, []));
        var o' := o.(pos := o.pos + offer.chunk, context := if chunk == [] then OwnerNone else OwnerIncr);
        (o', x', chunk == [])
  }

  /** The body of the loop of doIn, once XNextEvent has returned `e`. */
  function OwnerHandles(offer: Offer, o: Owner, x: XServer, e: Event): (Owner, XServer) {
    var (o', x', finished) := Xcin(offer, o, x, e);
    var clear := o'.clear || e == SelectionClear;
    (o'.(clear := clear, returned := o'.context == OwnerNone && clear), x')
  }

  // ---------------------------------------------------------------- xcout

  datatype RequestorContext = RequestorNone | SentConvSel | RequestorIncr | BadTarget

  /** Where doOut stands; Aborted is the exit of xcmalloc and xcrealloc when the limit is passed. */
  datatype Progress = Running | Finished | Failed | Aborted

  /** `result` is the buffer that doOut hands to its caller; None is the null pointer. */
  datatype Requestor = Requestor(context: RequestorContext, target: Atom, kind: Atom, text: bytes, progress: Progress,
                                 result: Option<bytes>)

  /** One call of xcout; `limit` is the largest allocation. */
  function Xcout(limit: nat, r: Requestor, x: XServer, e: Event): (Requestor, XServer) {
    match r.context
    case RequestorNone =>
      (r.(text := [], context := SentConvSel), x.(ownerQ := x.ownerQ + [SelectionRequest(r.target)]))
    case SentConvSel =>
      if !e.SelectionNotify? then (r, x)
      else if !e.delivered then (r.(context := BadTarget), x)
      else if ReadKind(x) == Incr then
        (r.(kind := Incr, context := RequestorIncr), DeleteProperty(x))
      else if |ReadText(x)| > limit then (r.(progress := Aborted), DeleteProperty(x))
      else (r.(kind := ReadKind(x), text := ReadText(x), context := RequestorNone), DeleteProperty(x))
    case RequestorIncr =>
      if e != PropertyNotify(true) then (r, x)
      else if ReadText(x) == [] then (r.(kind := ReadKind(x), context := RequestorNone), DeleteProperty(x))
      else if |r.text| + |ReadText(x)| > limit then (r.(progress := Aborted), x)
      else (r.(kind := ReadKind(x), text := r.text + ReadText(x)), DeleteProperty(x))
    case BadTarget => (r, x)
  }

  /** The fallback of doOut when the owner refuses the target. */
  const UTF8: Atom := Data(0)
  const STRING: Atom := Data(1)

  /** The body of the loop of doOut after XNextEvent. */
  function RequestorHandles(limit: nat, r: Requestor, x: XServer, e: Event): (Requestor, XServer) {
    var (r', x') := Xcout(limit, r, x, e);
    if r'.progress != Running then (r', x')
    else if r'.context == BadTarget then
      if r'.target == UTF8 then (r'.(context := RequestorNone, target := STRING), x') else (r'.(progress := Failed), x')
    else if r'.context == RequestorNone then (Copied(limit, r'), x')
    else (r', x')
  }

  /** The end of doOut: a terminated copy, if there is something to copy and it is not too long. */
  function Copied(limit: nat, r: Requestor): Requestor {
    if !Returnable(|r.text|) then r.(progress := Finished)
    else if |r.text| + 1 > limit then r.(progress := Aborted)
    else r.(progress := Finished, result := Some(r.text))
  }

  /** The lengths for which doOut makes the copy. */
  predicate Returnable(n: nat) { 0 < n < 0x7FFF_FFFF }

  /** Neither the text nor its copy passes the limit. */
  predicate Storable(limit: nat, n: nat) {
    n <= limit && (Returnable(n) ==> n + 1 <= limit)
  }

  /** What xclip_util returns to its caller: a null pointer is a failure. */
  function Delivered(r: Requestor): Option<bytes> {
    if r.progress == Finished && |r.text| < 0xFFFF_FFFF then r.result else None
  }

  // ---------------------------------------------------------------- both sides together

  datatype World = World(owner: Owner, requestor: Requestor, x: XServer)

  /** OwnerLoses: another client takes the selection, and the owner sees it before the rest of its queue. */
  datatype Turn = OwnerTakes | RequestorTakes | OwnerLoses

  function Step(offer: Offer, limit: nat, w: World, t: Turn): Option<World> {
    match t
    case OwnerTakes =>
      if w.owner.returned || w.x.ownerQ == [] then None
      else
        var (o, x) := OwnerHandles(offer, w.owner, w.x.(ownerQ := w.x.ownerQ[1..]), w.x.ownerQ[0]);
        Some(World(o, w.requestor, x))
    case OwnerLoses =>
      // a request that was sent before the loss is delivered before it
      if w.owner.returned || w.owner.clear || exists e :: e in w.x.ownerQ && e.SelectionRequest? then None
      else if w.requestor.context == RequestorNone && w.requestor.progress == Running then None
      else
        var (o, x) := OwnerHandles(offer, w.owner, w.x, SelectionClear);
        Some(World(o, w.requestor, x))
    case RequestorTakes =>
      if w.requestor.progress != Running then None
      else if w.requestor.context == RequestorNone then
        var (r, x) := RequestorHandles(limit, w.requestor, w.x, OtherEvent);
        Some(World(w.owner, r, x))
      else if w.x.requestorQ == [] then None
      else
        var (r, x) := RequestorHandles(limit, w.requestor, w.x.(requestorQ := w.x.requestorQ[1..]), w.x.requestorQ[0]);
        Some(World(w.owner, r, x))
  }

  function Run(offer: Offer, limit: nat, w: World, schedule: seq<Turn>): Option<World>
    decreases schedule
  {
    if schedule == [] then Some(w)
    else match Step(offer, limit, w, schedule[0])
      case None => None
      case Some(w') => Run(offer, limit, w', schedule[1..])
  }

  /** Nobody has done anything yet. */
  function Start(target: Atom): World {
    World(Owner(OwnerNone, 0, false, false), Requestor(RequestorNone, target, NoType, [], Running, None),
          XServer(None, [], [], false))
  }

  predicate Quiet(offer: Offer, limit: nat, w: World) {
    Step(offer, limit, w, OwnerTakes).None? && Step(offer, limit, w, RequestorTakes).None?
  }

  // ---------------------------------------------------------------- the invariant

  const NEW := PropertyNotify(true)
  const DELETED := PropertyNotify(false)
  const READY := SelectionNotify(true)

  /** What of the text the chunks before `pos` cover. */
  function Sent(offer: Offer, pos: nat): bytes {
    if pos <= |offer.text| then offer.text[..pos] else offer.text
  }

  predicate Either(q: seq<Event>, a: seq<Event>, b: seq<Event>) {
    q == a || q == b
  }

  predicate Idle(w: World) {
    && w.requestor.context == RequestorNone && w.requestor.progress == Running
    && w.requestor.text == [] && w.requestor.result == None
    && w.requestor.target != Targets
    && w.x == XServer(None, [], [], false) && w.owner.context == OwnerNone && !w.owner.clear && !w.owner.returned
  }

  predicate Asked(w: World) {
    && w.requestor.context == SentConvSel && w.requestor.progress == Running
    && w.requestor.text == [] && w.requestor.result == None
    && w.requestor.target != Targets
    && w.x == XServer(None, [SelectionRequest(w.requestor.target)], [], false)
    && w.owner.context == OwnerNone && !w.owner.clear && !w.owner.returned
  }

  /** The owner has answered; the requestor has not seen the answer. */
  predicate Answered(offer: Offer, w: World) {
    && w.requestor.context == SentConvSel && w.requestor.progress == Running
    && w.requestor.text == [] && w.requestor.result == None
    && w.x.ownerQ == [] && Either(w.x.requestorQ, [NEW, READY], [READY])
    && if |offer.text| > offer.chunk then
         && w.x.property == Some(Property(Incr, [], [])) && w.x.watched
         && w.owner.context == OwnerIncr && w.owner.pos == 0 && !w.owner.returned
       else
         && w.x.property == Some(Property(Data(offer.target), offer.text, [])) && !w.x.watched
         && w.owner.context == OwnerNone
  }

  predicate Transferring(offer: Offer, limit: nat, w: World) {
    && |offer.text| > offer.chunk && w.x.watched
    && w.requestor.context == RequestorIncr && w.requestor.progress == Running && w.requestor.result == None
    && |w.requestor.text| <= limit
  }

  /** The property is deleted and exactly one deletion waits for the owner, behind at most its own change. */
  predicate OwnersMove(offer: Offer, limit: nat, w: World) {
    && Transferring(offer, limit, w) && w.x.property == None
    && Either(w.x.ownerQ, [DELETED], [NEW, DELETED]) && Either(w.x.requestorQ, [], [DELETED])
    && w.owner.context == OwnerIncr && !w.owner.returned
    && w.requestor.text == Sent(offer, w.owner.pos)
  }

  /** A chunk is in the property and exactly one change waits for the requestor, behind at most its own deletion. */
  predicate RequestorsMove(offer: Offer, limit: nat, w: World) {
    && Transferring(offer, limit, w) && w.x.property.Some? && w.x.property.value.kind == Data(offer.target)
    && Either(w.x.ownerQ, [], [NEW]) && Either(w.x.requestorQ, [NEW], [DELETED, NEW])
    && w.requestor.text + w.x.property.value.text == Sent(offer, w.owner.pos)
    && if w.x.property.value.text == [] then w.owner.context == OwnerNone && w.requestor.text == offer.text
       else w.owner.context == OwnerIncr && !w.owner.returned
  }

  predicate Over(offer: Offer, limit: nat, w: World) {
    || (&& w.requestor.progress == Finished && w.requestor.context == RequestorNone
        && w.requestor.text == offer.text && Storable(limit, |offer.text|)
        && w.requestor.result == (if Returnable(|offer.text|) then Some(offer.text) else None)
        && w.owner.context == OwnerNone && w.x.property == None && forall e :: e in w.x.ownerQ ==> !e.SelectionRequest?)
    || (w.requestor.progress == Aborted && w.requestor.result == None && !Storable(limit, |offer.text|)
        && (w.owner.context == OwnerIncr ==> w.x.property.Some? && Either(w.x.ownerQ, [], [NEW]))
        && (w.owner.context == OwnerIncr <==> |offer.text| > offer.chunk && |offer.text| > limit)
        && forall e :: e in w.x.ownerQ ==> !e.SelectionRequest?)
  }

  predicate Inv(offer: Offer, limit: nat, w: World) {
    || Idle(w) || Asked(w) || Answered(offer, w)
    || OwnersMove(offer, limit, w) || RequestorsMove(offer, limit, w) || Over(offer, limit, w)
  }

  // ---------------------------------------------------------------- every step keeps it and makes progress

  /** How often the owner still writes the property: once per chunk, and once empty. */
  function Rounds(offer: Offer, pos: nat): nat
    requires offer.chunk > 0
    decreases |offer.text| - pos
  {
    if pos >= |offer.text| then 1 else 1 + Rounds(offer, pos + offer.chunk)
  }

  /** An upper bound on the steps still to come. */
  function Rank(offer: Offer, w: World): nat
    requires offer.chunk > 0
  {
    |w.x.ownerQ| + |w.x.requestorQ| + (if w.x.property.Some? then 2 else 0) + (if w.owner.clear then 0 else 1)
    + (if w.owner.context == OwnerIncr then 4 * Rounds(offer, w.owner.pos) else 0)
    + (if w.requestor.progress == Running && w.requestor.context == RequestorNone then 4 * Rounds(offer, 0) + 6
       else if Asked(w) then 4 * Rounds(offer, 0) + 4 else 0)
  }

  lemma ChunkExtends(offer: Offer, pos: nat)
    requires offer.chunk > 0
    ensures Sent(offer, pos) + ChunkAt(offer, pos) == Sent(offer, pos + offer.chunk)
    ensures ChunkAt(offer, pos) == [] <==> pos >= |offer.text|
    ensures ChunkAt(offer, pos) == [] ==> Sent(offer, pos) == offer.text
  {
  }

  lemma FromIdle(offer: Offer, limit: nat, w: World, t: Turn, w': World)
    requires offer.chunk > 0 && Idle(w) && Step(offer, limit, w, t) == Some(w')
    ensures Asked(w') && Rank(offer, w') < Rank(offer, w)
  {
  }

  lemma FromAsked(offer: Offer, limit: nat, w: World, t: Turn, w': World)
    requires offer.chunk > 0 && Asked(w) && Step(offer, limit, w, t) == Some(w')
    ensures Answered(offer, w') && Rank(offer, w') < Rank(offer, w)
  {
    assert w.x.ownerQ[0].SelectionRequest?;
  }

  lemma FromAnswered(offer: Offer, limit: nat, w: World, t: Turn, w': World)
    requires offer.chunk > 0 && Answered(offer, w) && Step(offer, limit, w, t) == Some(w')
    ensures Answered(offer, w') || OwnersMove(offer, limit, w') || Over(offer, limit, w')
    ensures Rank(offer, w') < Rank(offer, w)
  {
  }

  lemma FromOwnersMove(offer: Offer, limit: nat, w: World, t: Turn, w': World)
    requires offer.chunk > 0 && OwnersMove(offer, limit, w) && Step(offer, limit, w, t) == Some(w')
    ensures OwnersMove(offer, limit, w') || RequestorsMove(offer, limit, w')
    ensures Rank(offer, w') < Rank(offer, w)
  {
    hide Sent, ChunkAt;
    match t
    case OwnerTakes => OwnerWrites(offer, limit, w, w');
    case _ =>
  }

  /** The owner's side of this phase: it skips its own change, or answers the deletion with the next chunk. */
  lemma OwnerWrites(offer: Offer, limit: nat, w: World, w': World)
    requires offer.chunk > 0 && OwnersMove(offer, limit, w) && Step(offer, limit, w, OwnerTakes) == Some(w')
    ensures OwnersMove(offer, limit, w') || RequestorsMove(offer, limit, w')
    ensures Rank(offer, w') < Rank(offer, w)
  {
    hide Sent, ChunkAt;
    ChunkExtends(offer, w.owner.pos);
  }

  lemma FromRequestorsMove(offer: Offer, limit: nat, w: World, t: Turn, w': World)
    requires offer.chunk > 0 && RequestorsMove(offer, limit, w) && Step(offer, limit, w, t) == Some(w')
    ensures OwnersMove(offer, limit, w') || RequestorsMove(offer, limit, w') || Over(offer, limit, w')
    ensures Rank(offer, w') < Rank(offer, w)
  {
    hide ChunkAt;
    match t
    case RequestorTakes => RequestorReads(offer, limit, w, w');
    case _ =>
  }

  /** The requestor's side: it skips its own deletion, or takes the chunk and deletes it, or finishes. */
  lemma RequestorReads(offer: Offer, limit: nat, w: World, w': World)
    requires offer.chunk > 0 && RequestorsMove(offer, limit, w) && Step(offer, limit, w, RequestorTakes) == Some(w')
    ensures OwnersMove(offer, limit, w') || RequestorsMove(offer, limit, w') || Over(offer, limit, w')
    ensures Rank(offer, w') < Rank(offer, w)
  {
    hide ChunkAt, Rounds;
  }

  lemma FromOver(offer: Offer, limit: nat, w: World, t: Turn, w': World)
    requires offer.chunk > 0 && Over(offer, limit, w) && Step(offer, limit, w, t) == Some(w')
    ensures Over(offer, limit, w') && Rank(offer, w') < Rank(offer, w)
  {
  }

  lemma StepKeepsInv(offer: Offer, limit: nat, w: World, t: Turn, w': World)
    requires offer.chunk > 0 && Inv(offer, limit, w) && Step(offer, limit, w, t) == Some(w')
    ensures Inv(offer, limit, w') && Rank(offer, w') < Rank(offer, w)
  {
    hide Step, Rank, Idle, Asked, Answered, OwnersMove, RequestorsMove, Over;
    if Idle(w) {
      FromIdle(offer, limit, w, t, w');
    } else if Asked(w) {
      FromAsked(offer, limit, w, t, w');
    } else if Answered(offer, w) {
      FromAnswered(offer, limit, w, t, w');
    } else if OwnersMove(offer, limit, w) {
      FromOwnersMove(offer, limit, w, t, w');
    } else if RequestorsMove(offer, limit, w) {
      FromRequestorsMove(offer, limit, w, t, w');
    } else {
      FromOver(offer, limit, w, t, w');
    }
  }

  lemma {:induction false} RunKeepsInv(offer: Offer, limit: nat, w: World, schedule: seq<Turn>, w': World)
    requires offer.chunk > 0 && Inv(offer, limit, w) && Run(offer, limit, w, schedule) == Some(w')
    ensures Inv(offer, limit, w') && Rank(offer, w') + |schedule| <= Rank(offer, w)
    decreases schedule
  {
    hide Step, Inv, Rank;
    if schedule != [] {
      var next := Step(offer, limit, w, schedule[0]).value;
      StepKeepsInv(offer, limit, w, schedule[0], next);
      RunKeepsInv(offer, limit, next, schedule[1..], w');
    }
  }

  /** While the transfer is not over, one of the two sides can go on. */
  lemma NobodyWaitsForever(offer: Offer, limit: nat, w: World)
    requires offer.chunk > 0 && Inv(offer, limit, w) && !Over(offer, limit, w)
    ensures !Quiet(offer, limit, w)
  {
  }

  /**
    * Every run: at most four steps a chunk and a constant; a requestor that finishes has the owner's text; and a
    * run that nobody can continue has finished, with both contexts back at none, exactly if the text can be stored.
    * The caller gets the text exactly if, besides, it is neither empty nor of 2^31 - 1 bytes or more.
    */
  lemma Delivery(offer: Offer, limit: nat, target: nat, schedule: seq<Turn>, w: World)
    requires offer.chunk > 0 && Run(offer, limit, Start(Data(target)), schedule) == Some(w)
    ensures |schedule| <= 4 * Rounds(offer, 0) + 7
    ensures w.requestor.progress == Finished ==> w.requestor.text == offer.text
    ensures Quiet(offer, limit, w) && Storable(limit, |offer.text|) ==>
              w.requestor.progress == Finished && w.requestor.context == RequestorNone && w.owner.context == OwnerNone
    ensures Quiet(offer, limit, w) && !Storable(limit, |offer.text|) ==> w.requestor.progress == Aborted
    ensures Delivered(w.requestor).Some? ==> Delivered(w.requestor) == Some(offer.text)
    ensures Quiet(offer, limit, w) ==>
              (Delivered(w.requestor) == Some(offer.text)
               <==> Storable(limit, |offer.text|) && Returnable(|offer.text|))
  {
    var start := Start(Data(target));
    assert Idle(start) && Rank(offer, start) == 4 * Rounds(offer, 0) + 7;
    RunKeepsInv(offer, limit, start, schedule, w);
    if w.requestor.progress != Running { FinishedIsOver(offer, limit, w); }
    if Quiet(offer, limit, w) && !Over(offer, limit, w) {
      NobodyWaitsForever(offer, limit, w);
    }
    NoResultYet(offer, limit, w);
  }

  /** Whether the owner has lost the selection, and whether its loop has ended. */
  ghost predicate LoopIs(w: World, lost: bool) {
    && (w.owner.clear <==> lost)
    && (w.owner.returned <==> lost && w.owner.context == OwnerNone)
    && SelectionClear !in w.x.ownerQ
  }

  lemma StepKeepsLoop(offer: Offer, limit: nat, w: World, t: Turn, w': World, lost: bool)
    requires LoopIs(w, lost) && Step(offer, limit, w, t) == Some(w')
    ensures LoopIs(w', lost || t == OwnerLoses)
  {
    hide ChunkAt, Copied, ReadText, ReadKind;
    if t == OwnerTakes { assert w.x.ownerQ[0] in w.x.ownerQ; }
  }

  lemma {:induction false} RunKeepsLoop(offer: Offer, limit: nat, w: World, schedule: seq<Turn>, w': World, lost: bool)
    requires LoopIs(w, lost) && Run(offer, limit, w, schedule) == Some(w')
    ensures LoopIs(w', lost || OwnerLoses in schedule)
    decreases schedule
  {
    hide Step, LoopIs;
    if schedule != [] {
      var next := Step(offer, limit, w, schedule[0]).value;
      StepKeepsLoop(offer, limit, w, schedule[0], next, lost);
      RunKeepsLoop(offer, limit, next, schedule[1..], w', lost || schedule[0] == OwnerLoses);
    }
  }

  /**
    * doIn returns exactly if the selection was lost and no transfer is going on. In a run that nobody can continue it
    * has returned after a loss, unless the text needs several chunks and does not fit the limit of the requestor: then
    * the requestor has given up in the middle, and the owner waits for a deletion that never comes.
    */
  lemma OwnerReturns(offer: Offer, limit: nat, target: nat, schedule: seq<Turn>, w: World)
    requires offer.chunk > 0 && Run(offer, limit, Start(Data(target)), schedule) == Some(w)
    ensures w.owner.returned <==> OwnerLoses in schedule && w.owner.context == OwnerNone
    ensures w.owner.clear <==> OwnerLoses in schedule
    ensures Quiet(offer, limit, w) && OwnerLoses in schedule ==>
              (w.owner.returned <==> |offer.text| <= offer.chunk || |offer.text| <= limit)
    ensures Quiet(offer, limit, w) && OwnerLoses in schedule && w.requestor.progress == Finished ==> w.owner.returned
  {
    hide Step, Inv, Rank, Over;
    var start := Start(Data(target));
    StartIsIdle(offer, limit, target);
    RunKeepsLoop(offer, limit, start, schedule, w, false);
    RunKeepsInv(offer, limit, start, schedule, w);
    if Quiet(offer, limit, w) {
      if !Over(offer, limit, w) { NobodyWaitsForever(offer, limit, w); }
      OverContext(offer, limit, w);
    }
  }

  lemma StartIsIdle(offer: Offer, limit: nat, target: nat)
    ensures Inv(offer, limit, Start(Data(target))) && LoopIs(Start(Data(target)), false)
  {
  }

  lemma OverContext(offer: Offer, limit: nat, w: World)
    requires Over(offer, limit, w)
    ensures w.owner.context == OwnerNone <==> |offer.text| <= offer.chunk || |offer.text| <= limit
    ensures w.requestor.progress == Finished ==> w.owner.context == OwnerNone
  {
  }

  /** With a text above the chunk and above the limit, there is such a run: the owner never returns. */
  lemma OwnerIsStuck(offer: Offer, limit: nat) returns (schedule: seq<Turn>, w: World)
    requires 0 < offer.chunk < |offer.text| && limit < |offer.text|
    ensures Run(offer, limit, Start(UTF8), schedule) == Some(w) && Quiet(offer, limit, w)
    ensures OwnerLoses in schedule && w.owner.clear && !w.owner.returned && w.requestor.progress == Aborted
  {
    hide Step, Inv, Rank, Over;
    var start := Start(UTF8);
    StartIsIdle(offer, limit, 0);
    var beginning: seq<Turn> := [RequestorTakes, OwnerTakes, OwnerLoses];
    var mid := LossInTheMiddle(offer, limit, beginning);
    RunKeepsInv(offer, limit, start, beginning, mid);
    var rest;
    rest, w := RunsEnd(offer, limit, mid);
    schedule := beginning + rest;
    RunConcat(offer, limit, start, beginning, rest);
    OwnerReturns(offer, limit, 0, schedule, w);
    Delivery(offer, limit, 0, schedule, w);
  }

  /** The request, its answer, and then the loss. */
  lemma LossInTheMiddle(offer: Offer, limit: nat, beginning: seq<Turn>) returns (mid: World)
    requires beginning == [RequestorTakes, OwnerTakes, OwnerLoses]
    ensures Run(offer, limit, Start(UTF8), beginning) == Some(mid)
  {
    hide Run, Step;
    var first := AskedAfterOne(offer, limit);
    var second := AnsweredAfterTwo(offer, limit, first);
    mid := LostAfterThree(offer, limit, second);
    RunThree(offer, limit, Start(UTF8), first, second, mid, beginning);
  }

  lemma AskedAfterOne(offer: Offer, limit: nat) returns (w: World)
    ensures Step(offer, limit, Start(UTF8), RequestorTakes) == Some(w) && Asked(w)
  {
    w := Step(offer, limit, Start(UTF8), RequestorTakes).value;
  }

  lemma AnsweredAfterTwo(offer: Offer, limit: nat, before: World) returns (w: World)
    requires Asked(before)
    ensures Step(offer, limit, before, OwnerTakes) == Some(w)
    ensures Answered(offer, w) && !w.owner.clear && !w.owner.returned
  {
    w := Step(offer, limit, before, OwnerTakes).value;
  }

  lemma LostAfterThree(offer: Offer, limit: nat, before: World) returns (w: World)
    requires Answered(offer, before) && !before.owner.clear && !before.owner.returned
    ensures Step(offer, limit, before, OwnerLoses) == Some(w)
  {
    w := Step(offer, limit, before, OwnerLoses).value;
  }

  lemma RunThree(offer: Offer, limit: nat, a: World, b: World, c: World, d: World, turns: seq<Turn>)
    requires |turns| == 3 && Step(offer, limit, a, turns[0]) == Some(b)
    requires Step(offer, limit, b, turns[1]) == Some(c) && Step(offer, limit, c, turns[2]) == Some(d)
    ensures Run(offer, limit, a, turns) == Some(d)
  {
    hide Step;
    assert turns[1..][1..] == turns[2..] && turns[2..][1..] == [];
    assert Run(offer, limit, d, []) == Some(d);
    assert Run(offer, limit, c, turns[2..]) == Some(d);
    assert Run(offer, limit, b, turns[1..]) == Some(d);
  }

  lemma {:induction false} RunConcat(offer: Offer, limit: nat, w: World, a: seq<Turn>, b: seq<Turn>)
    requires Run(offer, limit, w, a).Some?
    ensures Run(offer, limit, w, a + b) == Run(offer, limit, Run(offer, limit, w, a).value, b)
    decreases a
  {
    hide Step;
    if a == [] {
      assert a + b == b;
    } else {
      assert (a + b)[1..] == a[1..] + b;
      RunConcat(offer, limit, Step(offer, limit, w, a[0]).value, a[1..], b);
    }
  }

  lemma NoResultYet(offer: Offer, limit: nat, w: World)
    requires Inv(offer, limit, w)
    ensures w.requestor.result == None || w.requestor.progress == Finished
  {
  }

  /** Every run can be continued to one that nobody can continue, so the lemma above speaks of something. */
  lemma {:induction false} RunsEnd(offer: Offer, limit: nat, w: World) returns (schedule: seq<Turn>, end: World)
    requires offer.chunk > 0 && Inv(offer, limit, w)
    ensures Run(offer, limit, w, schedule) == Some(end) && Quiet(offer, limit, end)
    decreases Rank(offer, w)
  {
    hide Step, Rank, Inv;
    if Quiet(offer, limit, w) {
      return [], w;
    }
    var t := if Step(offer, limit, w, OwnerTakes).Some? then OwnerTakes else RequestorTakes;
    var next := Step(offer, limit, w, t).value;
    StepKeepsInv(offer, limit, w, t, next);
    var rest;
    rest, end := RunsEnd(offer, limit, next);
    schedule := [t] + rest;
    assert schedule[1..] == rest;
  }

  /**
    * A text of 2^31 - 1 bytes that the limit allows, as max_text_length can: the transfer completes, and the caller
    * gets a null pointer. The same happens to an empty text.
    */
  lemma LongTextIsNotDelivered() returns (offer: Offer, schedule: seq<Turn>, w: World)
    ensures |offer.text| == 0x7FFF_FFFF && offer.chunk > 0
    ensures Run(offer, 0xFFFF_FFFE, Start(UTF8), schedule) == Some(w) && Quiet(offer, 0xFFFF_FFFE, w)
    ensures w.requestor.progress == Finished && w.requestor.text == offer.text && Delivered(w.requestor) == None
  {
    hide Run, Quiet;
    offer := Offer(seq(0x7FFF_FFFF, _ => 97), 0, 65536);
    schedule, w := RunsEnd(offer, 0xFFFF_FFFE, Start(UTF8));
    Delivery(offer, 0xFFFF_FFFE, 0, schedule, w);
  }

  lemma FinishedIsOver(offer: Offer, limit: nat, w: World)
    requires Inv(offer, limit, w) && w.requestor.progress != Running
    ensures Over(offer, limit, w)
  {
  }

  // ---------------------------------------------------------------- the owner alone, under any events

  /** What the owner writes into the property while it is fed `events`. */
  function Feed(offer: Offer, o: Owner, x: XServer, events: seq<Event>): (Owner, seq<bytes>)
    decreases events
  {
    if events == [] then (o, [])
    else
      var (o', x', _) := Xcin(offer, o, x, events[0]);
      var written := if o.context == OwnerIncr && events[0] == DELETED then [ReadText(x')] else [];
      var (end, rest) := Feed(offer, o', x', events[1..]);
      (end, written + rest)
  }

  function Deletions(events: seq<Event>): nat {
    if events == [] then 0 else (if events[0] == DELETED then 1 else 0) + Deletions(events[1..])
  }

  function Min(a: nat, b: nat): nat { if a <= b then a else b }

  /** After `n` deletions there is no further request; before, there may be any number of them. */
  predicate NoRequestAfter(events: seq<Event>, n: nat)
    decreases events
  {
    events == []
    || ((n == 0 ==> !events[0].SelectionRequest?)
        && NoRequestAfter(events[1..], if events[0] == DELETED && n > 0 then n - 1 else n))
  }

  /** It says nothing about events that hold fewer deletions, or that end with the last one. */
  lemma {:induction false} BeforeTheEnd(events: seq<Event>, n: nat)
    requires Deletions(events) < n || (Deletions(events) == n && events != [] && events[|events| - 1] == DELETED)
    ensures NoRequestAfter(events, n)
    decreases events
  {
    if events != [] {
      var rest := events[1..];
      if rest == [] {
        assert Deletions(rest) == 0;
      } else {
        if Deletions(events) == n { LastIsCounted(rest); }
        BeforeTheEnd(rest, if events[0] == DELETED && n > 0 then n - 1 else n);
      }
    }
  }

  lemma {:induction false} LastIsCounted(events: seq<Event>)
    requires events != [] && events[|events| - 1] == DELETED
    ensures Deletions(events) > 0
    decreases events
  {
    if |events| > 1 { LastIsCounted(events[1..]); }
  }

  lemma {:induction false} NothingAfterTheEnd(offer: Offer, o: Owner, x: XServer, events: seq<Event>)
    requires o.context == OwnerNone && NoRequestAfter(events, 0)
    ensures Feed(offer, o, x, events) == (o, [])
    decreases events
  {
    if events != [] {
      assert Xcin(offer, o, x, events[0]) == (o, x, false);
      NothingAfterTheEnd(offer, o, x, events[1..]);
      var rest := Feed(offer, o, x, events[1..]).1;
      assert [] + rest == rest;
    }
  }

  /** `k` deletions have been answered since `o`, by the chunks `written`. */
  predicate Answers(offer: Offer, o: Owner, end: Owner, written: seq<bytes>, k: nat)
    requires offer.chunk > 0
  {
    && |written| == k && end.pos == o.pos + k * offer.chunk
    && Sent(offer, o.pos) + Flatten(written) == Sent(offer, end.pos)
    && (end.context == OwnerNone <==> k == Rounds(offer, o.pos))
    && forall i :: 0 <= i < k ==> (written[i] == [] <==> i == Rounds(offer, o.pos) - 1)
  }

  lemma LastAnswer(offer: Offer, o: Owner, end: Owner)
    requires offer.chunk > 0 && o.pos >= |offer.text| && end.context == OwnerNone && end.pos == o.pos + offer.chunk
    ensures Answers(offer, o, end, [[]], 1)
  {
    assert Flatten([[]]) == [];
  }

  lemma OneMoreAnswer(offer: Offer, o: Owner, o': Owner, end: Owner, rest: seq<bytes>, k: nat)
    requires offer.chunk > 0 && o.pos < |offer.text|
    requires o'.pos == o.pos + offer.chunk && Answers(offer, o', end, rest, k)
    ensures Answers(offer, o, end, [ChunkAt(offer, o.pos)] + rest, k + 1)
  {
    hide Sent, ChunkAt;
    var chunk, written := ChunkAt(offer, o.pos), [ChunkAt(offer, o.pos)] + rest;
    ChunkExtends(offer, o.pos);
    assert written[1..] == rest;
    Distribute(k, offer.chunk);
    assert Sent(offer, o.pos) + (chunk + Flatten(rest)) == (Sent(offer, o.pos) + chunk) + Flatten(rest);
    assert Rounds(offer, o.pos) == 1 + Rounds(offer, o'.pos);
  }

  lemma Distribute(k: nat, n: nat)
    ensures (k + 1) * n == k * n + n
  {
  }

  /**
    * Only deletions move the owner, whatever else arrives, new requests included. After k of them it has written the
    * text up to k chunks in order; the last of `Rounds` writes is empty, the ones before are not, and it ends the
    * transfer. Only after that a request would begin another one.
    */
  lemma {:induction false} ChunkAccounting(offer: Offer, o: Owner, x: XServer, events: seq<Event>)
    requires offer.chunk > 0 && o.context == OwnerIncr && NoRequestAfter(events, Rounds(offer, o.pos))
    ensures var (end, written) := Feed(offer, o, x, events);
            Answers(offer, o, end, written, Min(Deletions(events), Rounds(offer, o.pos)))
    decreases events
  {
    hide Answers, Xcin, ChunkAt;
    if events == [] {
      NoAnswer(offer, o);
    } else if events[0] != DELETED {
      NotADeletion(offer, o, x, events[0]);
      ChunkAccounting(offer, o, x, events[1..]);
      var (end, rest) := Feed(offer, o, x, events[1..]);
      assert [] + rest == rest;
    } else {
      var (o', x', finished) := Xcin(offer, o, x, events[0]);
      OneDeletion(offer, o, x);
      var chunk := ChunkAt(offer, o.pos);
      if o.pos >= |offer.text| {
        NothingAfterTheEnd(offer, o', x', events[1..]);
        LastAnswer(offer, o, o');
        assert [chunk] + [] == [[]];
      } else {
        ChunkAccounting(offer, o', x', events[1..]);
        var (end, rest) := Feed(offer, o', x', events[1..]);
        OneMoreAnswer(offer, o, o', end, rest, Min(Deletions(events[1..]), Rounds(offer, o'.pos)));
      }
    }
  }

  lemma NotADeletion(offer: Offer, o: Owner, x: XServer, e: Event)
    requires o.context == OwnerIncr && e != DELETED
    ensures Xcin(offer, o, x, e) == (o, x, false)
  {
  }

  lemma OneDeletion(offer: Offer, o: Owner, x: XServer)
    requires offer.chunk > 0 && o.context == OwnerIncr
    ensures var (o', x', finished) := Xcin(offer, o, x, DELETED);
            && o'.pos == o.pos + offer.chunk && o'.context == (if o.pos >= |offer.text| then OwnerNone else OwnerIncr)
            && ReadText(x') == ChunkAt(offer, o.pos)
    ensures ChunkAt(offer, o.pos) == [] <==> o.pos >= |offer.text|
  {
  }

  lemma NoAnswer(offer: Offer, o: Owner)
    requires offer.chunk > 0 && o.context == OwnerIncr
    ensures Answers(offer, o, o, [], 0)
  {
    assert Sent(offer, o.pos) + [] == Sent(offer, o.pos);
  }

  /** The number of writes: one for each chunk, the last possibly short, and the empty one after an exact fit too. */
  lemma {:induction false} RoundsCount(offer: Offer, pos: nat)
    requires offer.chunk > 0 && pos <= |offer.text|
    ensures |offer.text| - pos <= (Rounds(offer, pos) - 1) * offer.chunk < |offer.text| - pos + offer.chunk
    decreases |offer.text| - pos
  {
    var next := pos + offer.chunk;
    if next <= |offer.text| {
      RoundsCount(offer, next);
      assert (Rounds(offer, pos) - 1) * offer.chunk == (Rounds(offer, next) - 1) * offer.chunk + offer.chunk;
    } else if pos < |offer.text| {
      assert Rounds(offer, next) == 1;
    }
  }
}
