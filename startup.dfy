/** Start-up: locating the chat interface before any checkbox is injected. */
module Startup {
  import opened Wrappers

  /** Container selectors tried in order by `waitForChatInterface`. */
  const ChatSelectors := [
    ".w-full.h-full.relative",
    "[role=\"main\"]",
    "#__next",
    ".overflow-y-auto.overflow-x-hidden"
  ]

  /** The error thrown when no container selector yields an element. */
  const ChatNotFound := "Chat container not found"

  /**
   * `waitForChatInterface()`: awaits `waitForElement` on each selector in turn
   * and returns the first element found; throws `ChatNotFound` only when every
   * selector yields nothing. `waitForElement` stands for the awaited result of
   * one wait (the poll, the observer and the timeout are not modelled);
   * `tried` is the number of waits performed.
   */
  method WaitForChatInterface<T>(waitForElement: string -> Option<T>) returns (r: Result<T, string>, tried: nat)
    ensures 1 <= tried <= |ChatSelectors|
    ensures forall j :: 0 <= j < tried - 1 ==> waitForElement(ChatSelectors[j]).None?
    ensures r.Success? ==> waitForElement(ChatSelectors[tried - 1]) == Some(r.value)
    ensures r.Failure? <==> forall j :: 0 <= j < |ChatSelectors| ==> waitForElement(ChatSelectors[j]).None?
    ensures r.Failure? ==> r.error == ChatNotFound && tried == |ChatSelectors|
  {
    tried := 0;
    while tried < |ChatSelectors|
      invariant 0 <= tried <= |ChatSelectors|
      invariant forall j :: 0 <= j < tried ==> waitForElement(ChatSelectors[j]).None?
    {
      var container := waitForElement(ChatSelectors[tried]);
      tried := tried + 1;
      if container.Some? {
        return Success(container.value), tried;
      }
    }
    return Failure(ChatNotFound), tried;
  }
}
