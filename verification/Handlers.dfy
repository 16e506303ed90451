/** Handlers and middleware. Only identity and wrapping order are observable to the router. */
module Handlers {
  type Middleware = nat

  /** A handler supplied by the caller, one of the router's own replies, or either of them
      wrapped in middleware. */
  datatype Handler =
    | Base(id: nat) | NotFoundReply | NotAllowedReply | OptionsReply
    | Wrap(mw: Middleware, inner: Handler)

  /** The middleware a handler runs, outermost first, when every middleware calls the next. */
  function Layers(h: Handler): seq<Middleware> {
    match h
    case Wrap(m, inner) => [m] + Layers(inner)
    case _ => []
  }

  function BaseOf(h: Handler): Handler {
    match h
    case Wrap(_, inner) => BaseOf(inner)
    case _ => h
  }

  /** What a chain compiles to: its first element ends up outermost. */
  function WrapAll(chain: seq<Middleware>, h: Handler): Handler {
    if chain == [] then h else Wrap(chain[0], WrapAll(chain[1..], h))
  }

  lemma {:induction false} WrapAllRuns(chain: seq<Middleware>, h: Handler)
    ensures Layers(WrapAll(chain, h)) == chain + Layers(h)
    ensures BaseOf(WrapAll(chain, h)) == BaseOf(h)
  {
    if chain != [] {
      WrapAllRuns(chain[1..], h);
    } else {
      assert chain + Layers(h) == Layers(h);
    }
  }

  /** The compile loop of router.go: wrap from the last middleware back to the first. */
  method Compile(chain: seq<Middleware>, h: Handler) returns (out: Handler)
    ensures out == WrapAll(chain, h)
    ensures Layers(out) == chain + Layers(h) && BaseOf(out) == BaseOf(h)
  {
    out := h;
    var i := |chain|;
    while i > 0
      invariant 0 <= i <= |chain|
      invariant out == WrapAll(chain[i..], h)
    {
      i := i - 1;
      assert chain[i..] == [chain[i]] + chain[i + 1..];
      out := Wrap(chain[i], out);
    }
    assert chain[0..] == chain;
    WrapAllRuns(chain, h);
  }
}
