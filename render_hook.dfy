/**
 * `BlockModelRendererMixin.onRender`: the hook run at the head of every
 * baked-model block render. It cancels the render of a hidden block, and turns
 * the feature off when anything it calls throws past it.
 *
 * `state.getBlock()` is the parameter `getBlock`, whose outcome is a block,
 * null, or a thrown exception; `ci.cancel()` sets the `cancelled` field of a `CallbackInfo`.
 */
module RenderHook {
  import opened Optional
  import opened Store

  /** What a call that may throw does. */
  datatype Fallible<T> = Returned(value: T) | Thrown

  /** Mixin's callback handle; cancelling it skips the vanilla render. */
  class CallbackInfo {
    var cancelled: bool

    constructor()
      ensures !cancelled
    {
      cancelled := false;
    }

    method Cancel()
      modifies this
      ensures cancelled
    {
      cancelled := true;
    }
  }

  /** What one call of the hook decides: whether it cancels the render and
      the value of the feature flag afterwards. */
  datatype Decision = Decision(cancel: bool, enabledAfter: bool)

  /**
   * The hook's decision for one render call. A null state changes nothing.
   * Whatever `getBlock` returns, null included, goes to `shouldHide`: the
   * render is cancelled exactly when `shouldHide` says so, and the flag stays
   * as it was, even when the identifier lookup inside `shouldHide` throws. Only a throw from `getBlock` reaches the hook's
   * catch: no cancel, and the feature is off afterwards. The hook can turn
   * the feature off, never on, and a disabled store never cancels.
   */
  function Decide<S, B>(store: RevealState, state: Option<S>, getBlock: S -> Fallible<Option<B>>,
                        getId: B -> Resolution): (d: Decision)
    reads store
    ensures d.enabledAfter ==> store.enabled
    ensures d.cancel ==> store.enabled && d.enabledAfter
    ensures state.None? ==> d == Decision(false, store.enabled)
    ensures state.Some? && getBlock(state.value).Thrown? ==> d == Decision(false, false)
    ensures state.Some? && getBlock(state.value).Returned? ==>
              d.enabledAfter == store.enabled
              && (d.cancel <==> store.ShouldHide(getBlock(state.value).value, getId))
    ensures state.Some? && getBlock(state.value) == Returned(None) ==> d == Decision(false, store.enabled)
    ensures (state.Some? && getBlock(state.value).Returned? && getBlock(state.value).value.Some?
             && getId(getBlock(state.value).value.value).Threw?) ==>
              d == Decision(false, store.enabled)
  {
    match state
    case None => Decision(false, store.enabled)
    case Some(s) =>
      match getBlock(s)
      case Thrown => Decision(false, false)
      case Returned(block) => Decision(store.ShouldHide(block, getId), store.enabled)
  }

  /** `onRender`: carries out `Decide` on the callback and the flag, and never
      touches the identifier set. */
  method OnRender<S, B>(store: RevealState, state: Option<S>, getBlock: S -> Fallible<Option<B>>,
                        getId: B -> Resolution, ci: CallbackInfo)
    requires store.Valid()
    modifies store`enabled, ci
    ensures store.Valid() && store.ids == old(store.ids)
    ensures store.enabled == old(Decide(store, state, getBlock, getId)).enabledAfter
    ensures ci.cancelled == (old(ci.cancelled) || old(Decide(store, state, getBlock, getId)).cancel)
  {
    match state {
      case None =>
        return;
      case Some(s) =>
        match getBlock(s) {
          case Thrown =>
            store.SetEnabled(false);
          case Returned(block) =>
            if store.ShouldHide(block, getId) {
              ci.Cancel();
            }
        }
    }
  }
}
