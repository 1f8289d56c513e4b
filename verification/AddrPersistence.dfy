/** Saving and restoring the address manager at any point of any run. */
module AddrPersistence {
  import opened AddrTables
  import opened AddrRuns
  import opened AddrFile
  import opened AddrLoading
  import opened AddrPromises

  /** Saving the tables and loading the file gives back every entry and both tables, under new ids, consistently. */
  ghost predicate Restorable(e: Env, t: Tables) {
    forall order, checksum, visit :: Enumerates(order, t.info) ==>
      var r := Loaded(e, Written(t, order, checksum), checksum, visit);
      r.Some? && Renamed(t, r.value, IdOrder(t.info, order)) && Consistent(e, r.value)
  }

  lemma AfterRestored(e: Env, t: Tables, ops: seq<Op>)
    requires Consistent(e, t) && AllAre(e.valid, t) && Admits(e, e.valid) && forall op :: op in ops ==> op.Timely()
    ensures Restorable(e, After(e, t, ops))
  {
    hide After, Consistent, Renamed, Written, Loaded;
    RunAdmits(e, e.valid, t, ops);
    var r := After(e, t, ops);
    ConsistentSound(e, r);
    forall order, checksum, visit | Enumerates(order, r.info)
      ensures var l := Loaded(e, Written(r, order, checksum), checksum, visit);
        l.Some? && Renamed(r, l.value, IdOrder(r.info, order)) && Consistent(e, l.value)
    {
      RoundTrip(e, r, order, checksum, visit);
    }
  }

  lemma ConsistentSound(e: Env, t: Tables)
    requires Consistent(e, t)
    ensures Sound(e, t)
  {}

  /** Routable addresses being valid ones, the tables can be saved and restored at any point of any run. */
  lemma RunRestored(e: Env, ops: seq<Op>)
    requires (forall op :: op in ops ==> op.Timely()) && forall a :: e.routable(a) ==> e.valid(a)
    ensures Restorable(e, Run(e, ops))
  {
    hide After, Consistent, Restorable;
    EmptyConsistent(e);
    AfterRestored(e, EMPTY, ops);
  }

  /** The same for runs that start from any file that loads at all: every session leaves consistent tables that the
      next session can be started from. */
  lemma SessionRestored(e: Env, f: File, checksum: int, visit: Visit, ops: seq<Op>)
    requires Loaded(e, f, checksum, visit).Some?
    requires (forall op :: op in ops ==> op.Timely()) && forall a :: e.routable(a) ==> e.valid(a)
    ensures var t := Loaded(e, f, checksum, visit).value;
      Consistent(e, t) && Consistent(e, After(e, t, ops)) && Restorable(e, After(e, t, ops))
  {
    hide After, Consistent, Restorable, Loaded;
    LoadedConsistent(e, f, checksum, visit);
    AfterRestored(e, Loaded(e, f, checksum, visit).value, ops);
  }
}
