/** xclib.c and the event loops of xclip.c as the classes that run them, each call equal to its step function. */
module Xclib {
  import opened Bytes
  import S = XSelection

  /** The connection to the X server. */
  class Display {
    var property: Option<S.Property>
    var ownerQ: seq<S.Event>
    var requestorQ: seq<S.Event>
    var watched: bool

    constructor ()
      ensures View() == S.XServer(None, [], [], false)
    {
      property, ownerQ, requestorQ, watched := None, [], [], false;
    }

    ghost function View(): S.XServer
      reads this
    {
      S.XServer(property, ownerQ, requestorQ, watched)
    }

    method Notify(e: S.Event)
      modifies this
      ensures View() == S.Tell(old(View()), e)
    {
      requestorQ := requestorQ + [e];
      if watched { ownerQ := ownerQ + [e]; }
    }

    method XChangeProperty(kind: S.Atom, text: bytes, atoms: seq<S.Atom>)
      modifies this
      ensures View() == S.ChangeProperty(old(View()), S.Property(kind, text, atoms))
    {
      property := Some(S.Property(kind, text, atoms));
      Notify(S.PropertyNotify(true));
    }

    method XDeleteProperty()
      modifies this
      ensures View() == S.DeleteProperty(old(View()))
    {
      if property.Some? {
        property := None;
        Notify(S.PropertyNotify(false));
      }
    }

    method XSelectInput()
      modifies this
      ensures View() == old(View()).(watched := true)
    {
      watched := true;
    }

    method XSendEvent(e: S.Event)
      modifies this
      ensures View() == old(View()).(requestorQ := old(View()).requestorQ + [e])
    {
      requestorQ := requestorQ + [e];
    }

    method XConvertSelection(target: S.Atom)
      modifies this
      ensures View() == old(View()).(ownerQ := old(View()).ownerQ + [S.SelectionRequest(target)])
    {
      ownerQ := ownerQ + [S.SelectionRequest(target)];
    }

    method XGetWindowProperty() returns (kind: S.Atom, text: bytes)
      ensures kind == S.ReadKind(View()) && text == S.ReadText(View())
    {
      match property
      case None => kind, text := S.NoType, [];
      case Some(p) => kind, text := p.kind, p.text;
    }

    method NextOwnerEvent() returns (e: S.Event)
      requires ownerQ != []
      modifies this
      ensures e == old(ownerQ[0]) && View() == old(View()).(ownerQ := old(ownerQ)[1..])
    {
      e, ownerQ := ownerQ[0], ownerQ[1..];
    }

    method NextRequestorEvent() returns (e: S.Event)
      requires requestorQ != []
      modifies this
      ensures e == old(requestorQ[0]) && View() == old(View()).(requestorQ := old(requestorQ)[1..])
    {
      e, requestorQ := requestorQ[0], requestorQ[1..];
    }
  }

  /** The owner: the static variables of doIn and the arguments it passes to xcin. */
  class OwnerLoop {
    const offer: S.Offer
    var context: S.OwnerContext
    var pos: nat
    var clear: bool
    var returned: bool

    /** A quarter of the extended maximum request size, or of the plain one where there is no extension. */
    constructor (text: bytes, target: nat, extendedMaxRequest: nat, maxRequest: nat)
      ensures View() == S.Owner(S.OwnerNone, 0, false, false)
      ensures offer.text == text && offer.target == target
      ensures offer.chunk == if extendedMaxRequest >= 4 then extendedMaxRequest / 4 else maxRequest / 4
    {
      var chunkSize := extendedMaxRequest / 4;
      if chunkSize == 0 { chunkSize := maxRequest / 4; }
      offer := S.Offer(text, target, chunkSize);
      context, pos, clear, returned := S.OwnerNone, 0, false, false;
    }

    ghost function View(): S.Owner
      reads this
    {
      S.Owner(context, pos, clear, returned)
    }

    method Xcin(dpy: Display, evt: S.Event) returns (finished: bool)
      modifies this`context, this`pos, dpy
      ensures (View(), dpy.View(), finished) == S.Xcin(offer, old(View()), old(dpy.View()), evt)
      ensures old(context) == S.OwnerNone && evt == S.SelectionRequest(S.Targets) ==>
                && dpy.property == Some(S.Property(S.AtomList, [], [S.Targets, S.Data(offer.target)]))
                && dpy.requestorQ == old(dpy.requestorQ) + [S.PropertyNotify(true), S.SelectionNotify(true)]
                && context == S.OwnerNone && !finished
      ensures old(context) == S.OwnerNone && evt.SelectionRequest? && evt.target != S.Targets ==>
                && (|offer.text| <= offer.chunk ==>
                      && dpy.property == Some(S.Property(S.Data(offer.target), offer.text, []))
                      && context == S.OwnerNone && finished)
                && (|offer.text| > offer.chunk ==>
                      && dpy.property == Some(S.Property(S.Incr, [], [])) && dpy.watched
                      && context == S.OwnerIncr && pos == 0 && !finished)
                && dpy.requestorQ == old(dpy.requestorQ) + [S.PropertyNotify(true), S.SelectionNotify(true)]
      ensures old(context) == S.OwnerIncr && evt == S.PropertyNotify(false) ==>
                exists chunk ::
                  && dpy.property == Some(S.Property(S.Data(offer.target), chunk, []))
                  && chunk <= offer.text[if old(pos) < |offer.text| then old(pos) else |offer.text|..]
                  && |chunk| <= offer.chunk && (chunk == [] ==> context == S.OwnerNone && finished)
      ensures old(context) == S.OwnerNone && !evt.SelectionRequest? ==>
                View() == old(View()) && dpy.View() == old(dpy.View()) && !finished
    {
      match context
      case OwnerNone =>
        if !evt.SelectionRequest? { return false; }
        pos := 0;
        if evt.target == S.Targets {
          dpy.XChangeProperty(S.AtomList, [], [S.Targets, S.Data(offer.target)]);
        } else if |offer.text| > offer.chunk {
          dpy.XChangeProperty(S.Incr, [], []);
          dpy.XSelectInput();
          context := S.OwnerIncr;
        } else {
          dpy.XChangeProperty(S.Data(offer.target), offer.text, []);
        }
        dpy.XSendEvent(S.SelectionNotify(true));
        if evt.target == S.Targets { return false; }
        return |offer.text| <= offer.chunk;
      case OwnerIncr =>
        if !evt.PropertyNotify? || evt.newValue { return false; }
        var chunkLen: int := offer.chunk;
        if pos + chunkLen > |offer.text| { chunkLen := |offer.text| - pos; }
        if pos > |offer.text| { chunkLen := 0; }
        assert chunkLen > 0 ==> offer.text[pos..pos + chunkLen] == S.ChunkAt(offer, pos);
        if chunkLen > 0 {
          dpy.XChangeProperty(S.Data(offer.target), offer.text[pos..pos + chunkLen], []);
        } else {
          dpy.XChangeProperty(S.Data(offer.target), [], []);
          context := S.OwnerNone;
        }
        pos := pos + offer.chunk;
        return chunkLen == 0;
    }

    /** One turn of the inner loop of doIn. */
    method HandleNextEvent(dpy: Display)
      requires dpy.ownerQ != [] && !returned
      modifies this, dpy
      ensures (View(), dpy.View()) == S.OwnerHandles(offer, old(View()),
                old(dpy.View()).(ownerQ := old(dpy.ownerQ)[1..]), old(dpy.ownerQ[0]))
      ensures clear <==> old(clear) || old(dpy.ownerQ[0]) == S.SelectionClear
      ensures returned <==> clear && context == S.OwnerNone
    {
      var evt := dpy.NextOwnerEvent();
      var finished := Xcin(dpy, evt);
      if evt == S.SelectionClear { clear := true; }
      returned := context == S.OwnerNone && clear;
    }
  }

  /** The requestor: the local variables of doOut and the arguments it passes to xcout. */
  class RequestorLoop {
    const limit: nat
    var context: S.RequestorContext
    var target: S.Atom
    var kind: S.Atom
    var text: bytes
    var progress: S.Progress
    var result: Option<bytes>

    constructor (target: S.Atom, maxTextLength: nat)
      ensures View() == S.Requestor(S.RequestorNone, target, S.NoType, [], S.Running, None)
      ensures limit == if maxTextLength > 16777216 then maxTextLength else 16777216
    {
      limit := if maxTextLength > 16777216 then maxTextLength else 16777216;
      context, this.target, kind, text, progress, result := S.RequestorNone, target, S.NoType, [], S.Running, None;
    }

    ghost function View(): S.Requestor
      reads this
    {
      S.Requestor(context, target, kind, text, progress, result)
    }

    /** xcmalloc and xcrealloc: the process exits when the size is zero or passes the limit. */
    method Allocate(size: nat) returns (ok: bool)
      modifies this`progress
      ensures ok <==> 0 < size <= limit
      ensures progress == if ok then old(progress) else S.Aborted
    {
      ok := 0 < size <= limit;
      if !ok { progress := S.Aborted; }
    }

    method Xcout(dpy: Display, evt: S.Event)
      modifies this, dpy
      ensures (View(), dpy.View()) == S.Xcout(limit, old(View()), old(dpy.View()), evt)
    {
      match context
      case RequestorNone =>
        text := [];
        dpy.XConvertSelection(target);
        context := S.SentConvSel;
      case SentConvSel =>
        if !evt.SelectionNotify? { return; }
        if !evt.delivered {
          context := S.BadTarget;
          return;
        }
        var actual, data := dpy.XGetWindowProperty();
        if actual == S.Incr {
          kind := S.Incr;
          dpy.XDeleteProperty();
          context := S.RequestorIncr;
          return;
        }
        dpy.XDeleteProperty();
        if |data| > 0 {
          var ok := Allocate(|data|);
          if !ok { return; }
        }
        kind, text, context := actual, data, S.RequestorNone;
      case RequestorIncr =>
        if !evt.PropertyNotify? || !evt.newValue { return; }
        var actual, data := dpy.XGetWindowProperty();
        if |data| == 0 {
          dpy.XDeleteProperty();
          kind, context := actual, S.RequestorNone;
          return;
        }
        var ok := Allocate(|text| + |data|);
        if !ok { return; }
        kind, text := actual, text + data;
        dpy.XDeleteProperty();
      case BadTarget =>
    }

    /** One turn of the loop of doOut; it waits for an event only when xcout is busy. */
    method HandleNext(dpy: Display)
      requires progress == S.Running && (context != S.RequestorNone ==> dpy.requestorQ != [])
      modifies this, dpy
      ensures (View(), dpy.View()) ==
              if old(context) == S.RequestorNone
                then S.RequestorHandles(limit, old(View()), old(dpy.View()), S.OtherEvent)
              else S.RequestorHandles(limit, old(View()),
                     old(dpy.View()).(requestorQ := old(dpy.requestorQ)[1..]), old(dpy.requestorQ[0]))
      ensures old(context) == S.RequestorNone ==>
                dpy.ownerQ == old(dpy.ownerQ) + [S.SelectionRequest(old(target))] && context == S.SentConvSel
      ensures old(context) == S.SentConvSel && old(dpy.requestorQ[0]) == S.SelectionNotify(false) ==>
                && result == old(result) && dpy.ownerQ == old(dpy.ownerQ)
                && if old(target) == S.Data(0)
                     then progress == S.Running && context == S.RequestorNone && target == S.Data(1)
                   else progress == S.Failed
    {
      var evt := S.OtherEvent;
      if context != S.RequestorNone { evt := dpy.NextRequestorEvent(); }
      Xcout(dpy, evt);
      if progress != S.Running { return; }
      if context == S.BadTarget {
        if target == S.UTF8 {
          context, target := S.RequestorNone, S.STRING;
        } else {
          progress := S.Failed;
        }
        return;
      }
      if context == S.RequestorNone {
        if 0 < |text| < 0x7FFF_FFFF {
          var ok := Allocate(|text| + 1);
          if !ok { return; }
          result := Some(text);
        }
        progress := S.Finished;
      }
    }
  }
}
