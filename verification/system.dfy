/** The whole observable state the services act on: the store and the caches
    in front of it. Each service operation maps a state to a reply, which holds
    the operation's outcome and the state after it. */
module System {
  import opened Outcomes
  import Store
  import Caches

  datatype Sys = Sys(db: Store.Db, caches: Caches.Caches)

  datatype Reply<T> = Reply(result: Result<T>, after: Sys)

  function Initial(): Sys {
    Sys(Store.EmptyDb(), Caches.NoEntries())
  }
}
