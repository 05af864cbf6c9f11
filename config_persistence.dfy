/** Saving and loading a dialog's configuration (`ConfigPersistenceBridge`,
    with the reading side of `ConfigJsonMapper`). The file system and the
    JSON codec are outside the model: a load is given what the file
    decodes to. */
module ConfigPersistence {
  import opened Wrappers
  import opened ConfigModel
  import opened ConfigFlow

  /** What reading the dialog's file yields: no file, a file the decoder
      rejects, its entries in the decoded map's order, or entries that end
      in one `add` cannot store (a `null` value, or a value without a key,
      which the model's map refuses with a `NullPointerException`). */
  datatype StoredFile =
    | Missing
    | Unreadable
    | Entries(entries: seq<(string, ConfigValue)>)
    | Broken(entries: seq<(string, ConfigValue)>)
  {
    /** The read throws: the decoder rejects the file, or `add` an entry. */
    predicate Fails() {
      Unreadable? || Broken?
    }

    /** The entries stored before the read ends: for a broken file, those
        before the one `add` refuses. */
    function Added(): (es: seq<(string, ConfigValue)>)
      ensures Missing? || Unreadable? ==> es == []
      ensures Entries? || Broken? ==> es == entries
    {
      if Entries? || Broken? then entries else []
    }
  }

  /** The file of a dialog. */
  function PathOf(dialogId: string): (p: string)
    ensures |p| == |dialogId| + 13
    ensures p[..8] == "configs/" && p[8..|p| - 5] == dialogId && p[|p| - 5..] == ".json"
  {
    "configs/" + dialogId + ".json"
  }

  /** Different dialogs get different path strings. (Not necessarily
      different files: the file system reads `configs//a.json` as
      `configs/a.json`, and an id holding `..` leaves the directory.) */
  lemma PathInjective(a: string, b: string)
    requires PathOf(a) == PathOf(b)
    ensures a == b
  {
    var p := PathOf(a);
    assert a == p[8..|p| - 5];
  }

  /** `readFromFile`: every decoded entry is added in turn, under the key
      inside the value. */
  function Overlay(m: map<string, ConfigValue>, es: seq<(string, ConfigValue)>): map<string, ConfigValue>
    decreases |es|
  {
    if es == [] then m else Put(Overlay(m, es[..|es| - 1]), es[|es| - 1].1)
  }

  /** A key no entry mentions keeps what it had. */
  lemma {:induction false} OverlayKeeps(m: map<string, ConfigValue>, es: seq<(string, ConfigValue)>, k: string)
    requires forall i :: 0 <= i < |es| ==> es[i].1.key != k
    ensures Lookup(Overlay(m, es), k) == Lookup(m, k)
    decreases |es|
  {
    if es != [] {
      OverlayKeeps(m, es[..|es| - 1], k);
    }
  }

  /** The last entry for a key wins. */
  lemma {:induction false} OverlayLastWins(m: map<string, ConfigValue>, es: seq<(string, ConfigValue)>, i: nat)
    requires i < |es|
    requires forall j :: i < j < |es| ==> es[j].1.key != es[i].1.key
    ensures Lookup(Overlay(m, es), es[i].1.key) == Some(es[i].1)
    decreases |es|
  {
    if i < |es| - 1 {
      OverlayLastWins(m, es[..|es| - 1], i);
    }
  }

  /** Entries stay under their own keys. */
  lemma {:induction false} OverlayKeyed(m: map<string, ConfigValue>, es: seq<(string, ConfigValue)>)
    requires Keyed(m)
    ensures Keyed(Overlay(m, es))
    decreases |es|
  {
    if es != [] {
      OverlayKeyed(m, es[..|es| - 1]);
    }
  }

  /** Loading what was saved changes nothing: entries taken from the model
      put every value back where it was. */
  lemma {:induction false} OverlayOwn(m: map<string, ConfigValue>, es: seq<(string, ConfigValue)>)
    requires forall i :: 0 <= i < |es| ==> Lookup(m, es[i].1.key) == Some(es[i].1)
    ensures Overlay(m, es) == m
    decreases |es|
  {
    if es != [] {
      OverlayOwn(m, es[..|es| - 1]);
      PutPresent(m, es[|es| - 1].1);
    }
  }

  /** `ConfigJsonMapper.readFromFile`: an absent file leaves the model as
      it was; a decoded one is laid over it entry by entry; an unreadable
      one throws before any entry is added, and a broken one after the
      entries before the bad one are added. A throw is reported as
      `ok == false`. */
  method ReadFromFile(model: ConfigValueModel, stored: StoredFile) returns (ok: bool)
    modifies model
    ensures ok == !stored.Fails()
    ensures model.values == Overlay(old(model.values), stored.Added())
    ensures stored.Missing? || stored.Unreadable? ==> model.values == old(model.values)
    ensures Keyed(old(model.values)) ==> Keyed(model.values)
  {
    if stored.Unreadable? {
      return false;
    }
    var es := stored.Added();
    var i := 0;
    while i < |es|
      invariant 0 <= i <= |es|
      invariant model.values == Overlay(old(model.values), es[..i])
    {
      assert es[..i + 1][..i] == es[..i];
      model.Add(es[i].1);
      i := i + 1;
    }
    assert es[..i] == es;
    if Keyed(old(model.values)) {
      OverlayKeyed(old(model.values), es);
    }
    ok := !stored.Broken?;
  }

  /** The replay loop of `load`: each value is handed to `submit` in
      turn, which does not touch the model; the first refusal ends it. */
  method Replay(processor: ConfigProcessor, vs: seq<ConfigValue>) returns (ok: bool)
    modifies processor
    ensures ok == (!old(processor.closed) || vs == [])
    ensures processor.log == if ok then old(processor.log) + vs else old(processor.log)
    ensures processor.closed == old(processor.closed)
    ensures processor.subscribers == old(processor.subscribers)
  {
    ok := true;
    var j := 0;
    while j < |vs|
      invariant 0 <= j <= |vs|
      invariant processor.log == old(processor.log) + vs[..j]
      invariant processor.closed == old(processor.closed)
      invariant processor.subscribers == old(processor.subscribers)
      invariant old(processor.closed) ==> j == 0
    {
      ok := processor.Submit(vs[j]);
      if !ok {
        return;
      }
      j := j + 1;
    }
    assert vs[..j] == vs;
  }

  class ConfigPersistenceBridge {
    const processor: ConfigProcessor

    constructor(processor: ConfigProcessor)
      ensures this.processor == processor
    {
      this.processor := processor;
    }

    /** `save`: the model's export, to be written to the dialog's file.
        Nothing in the model or the processor changes. */
    method Save(dialogId: string) returns (path: string, written: map<string, ConfigValue>)
      ensures path == PathOf(dialogId)
      ensures written == processor.model.values
    {
      path := "configs/" + dialogId + ".json";
      written := processor.model.ExportRaw();
    }

    /** `load`: the file's entries are laid over the model (an absent file
        adds nothing, an unreadable or broken one aborts the load once its
        good entries are in), then every value
        of the model, old and new alike, is submitted once. Submitting
        does not write to the model. A closed processor refuses the first
        submission, which aborts the replay. */
    method Load(dialogId: string, stored: StoredFile) returns (path: string, ok: bool)
      requires processor.model.Valid()
      modifies processor, processor.model
      ensures path == PathOf(dialogId)
      ensures processor.model.values == Overlay(old(processor.model.values), stored.Added())
      ensures processor.model.Valid()
      ensures stored.Fails() ==> !ok && processor.log == old(processor.log)
      ensures !stored.Fails() && old(processor.closed) ==>
        processor.log == old(processor.log) && (ok <==> processor.model.values == map[])
      ensures !stored.Fails() && !old(processor.closed) ==>
        ok && exists replay ::
          && processor.log == old(processor.log) + replay
          && Listing(replay, processor.model.values)
      ensures processor.closed == old(processor.closed)
      ensures processor.subscribers == old(processor.subscribers)
    {
      path := "configs/" + dialogId + ".json";
      var read := ReadFromFile(processor.model, stored);
      if !read {
        return path, false;
      }
      var all := processor.model.All();
      ok := Replay(processor, all);
      assert all == [] <==> processor.model.values == map[] by {
        if all == [] {
          assert processor.model.values.Keys == KeysOf(all);
        } else {
          assert all[0].key in processor.model.values;
        }
      }
    }
  }
}
