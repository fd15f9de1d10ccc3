/** The frame widget as it runs: fields assigned by methods and event slots, messages sent as effects. */
module FrameViews {
  import opened FrameProtocol

  /** What the widget inherits: the embedded window, and the request that the window system has yet to answer. */
  class FrameView {
    var clientId: int
    var clientWId: int
    var clientWinId: int
    ghost var request: Request
    ghost var sent: seq<Message>

    ghost function Abs(): State
      reads this
    {
      State(clientId, clientWId, clientWinId, request, sent)
    }

    constructor ()
      ensures Abs() == Init()
    {
      clientId, clientWId, clientWinId := 0, 0, 0;
      request, sent := Nothing, [];
    }

    // inherited from the container

    method EmbedClient(window: int)
      modifies this`request
      ensures Abs() == FrameProtocol.EmbedClient(old(Abs()), window)
    {
      if window != 0 {
        request := Embed(window);
      }
    }

    method DiscardClient()
      modifies this`request
      ensures Abs() == FrameProtocol.DiscardClient(old(Abs()))
    {
      if clientWinId != 0 {
        request := Discard;
      }
    }

    method SendMessage(m: Message)
      modifies this`sent
      ensures Abs() == Send(old(Abs()), m)
    {
      sent := sent + [m];
    }

    // the frame

    method SetClientIds(clientId: int, clientWId: int)
      modifies this`clientId, this`clientWId, this`sent
      ensures Abs() == Send(old(Abs()).(clientId := clientId, clientWId := clientWId), UpdateContainer(clientId))
    {
      this.clientId := clientId;
      this.clientWId := clientWId;
      SendMessage(UpdateContainer(clientId));
    }

    method HandleEmbed(clientId: int, clientWId: int)
      modifies this
      ensures Abs() == Step(old(Abs()), Action.HandleEmbed(clientId, clientWId))
    {
      var oldClientId := this.clientId;
      SetClientIds(clientId, clientWId);
      if oldClientId != 0 {
        SendMessage(WebAppClose(oldClientId));
        if clientWinId != 0 {
          DiscardClient();
        }
      } else {
        EmbedClient(clientWId);
      }
    }

    method SlotClientClosed()
      modifies this
      ensures Abs() == FrameProtocol.SlotClientClosed(old(Abs()))
    {
      EmbedClient(clientWId);
    }

    method SlotClientIsEmbeded()
      modifies this
      ensures Abs() == FrameProtocol.SlotClientIsEmbeded(old(Abs()))
    {
      if clientWId != clientWinId {
        DiscardClient();
      } else if clientId != 0 {
        SendMessage(WebAppShow(clientId));
      }
    }

    method Destroy()
      modifies this
      ensures Abs() == FrameProtocol.Destroy(old(Abs()))
    {
      if clientId != 0 {
        SendMessage(WebAppClose(clientId));
      }
    }

    // the window system's events, each followed by the slot connected to it

    method OnEmbedded(window: int)
      requires request == Embed(window)
      modifies this
      ensures Abs() == Step(old(Abs()), Embedded)
    {
      clientWinId, request := window, Nothing;
      SlotClientIsEmbeded();
    }

    method OnClosed()
      requires request == Discard || (request == Nothing && clientWinId != 0)
      modifies this
      ensures Abs() == Step(old(Abs()), if old(request) == Discard then Closed else Vanished)
    {
      clientWinId, request := 0, Nothing;
      SlotClientClosed();
    }
  }
}
