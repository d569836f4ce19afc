/** The in-place walk over nested host dicts (injector.py), proved to compute the tree function. */
module Injectors {
  import opened InjectionTree

  datatype Slot = TextSlot(s: string) | OtherSlot(truthy: bool, tag: int) | DictSlot(d: HostDict)

  /** A mutable host dict. Nested dicts form a tree: no dict is reachable twice. */
  class HostDict {
    var entries: map<string, Slot>
    ghost var Repr: set<HostDict>

    ghost predicate Valid()
      reads this, Repr
      decreases Repr
    {
      && this in Repr
      && (forall k | k in entries && entries[k].DictSlot? ::
            && entries[k].d in Repr && entries[k].d.Repr <= Repr && this !in entries[k].d.Repr
            && entries[k].d.Valid())
      && (forall j, k | j in entries && k in entries && j != k && entries[j].DictSlot? && entries[k].DictSlot? ::
            entries[j].d.Repr !! entries[k].d.Repr)
    }

    /** The tree this dict stands for. */
    ghost function View(): (t: Tree)
      requires Valid()
      reads this, Repr
      ensures t.Dict? && t.entries.Keys == entries.Keys
      decreases Repr
    {
      Dict(map k | k in entries ::
        match entries[k]
        case TextSlot(s) => Text(s)
        case OtherSlot(truthy, tag) => Other(truthy, tag)
        case DictSlot(d) => d.View())
    }

    constructor ()
      ensures Valid() && fresh(Repr) && entries == map[] && View() == Dict(map[])
    {
      entries := map[];
      Repr := {this};
    }

    /** `d[key] = value` for a value that is not a dict. */
    method Put(key: string, slot: Slot)
      requires Valid() && !slot.DictSlot?
      modifies this
      ensures Valid() && Repr == old(Repr) && entries == old(entries)[key := slot]
      ensures View() ==
              Dict(old(View()).entries[key := if slot.TextSlot? then Text(slot.s) else Other(slot.truthy, slot.tag)])
    {
      ghost var before := View();
      entries := entries[key := slot];
      assert Valid();
      assert View().entries ==
             before.entries[key := if slot.TextSlot? then Text(slot.s) else Other(slot.truthy, slot.tag)];
    }

    /** `d[key] = child` for a dict that is not part of this tree yet. */
    method Attach(key: string, child: HostDict)
      requires Valid() && child.Valid() && child.Repr !! Repr
      modifies this
      ensures Valid() && Repr == old(Repr) + child.Repr && entries == old(entries)[key := DictSlot(child)]
      ensures View() == Dict(old(View()).entries[key := old(child.View())])
    {
      ghost var before := View();
      entries := entries[key := DictSlot(child)];
      Repr := Repr + child.Repr;
      assert Valid();
      assert View().entries == before.entries[key := child.View()];
    }
  }

  class OpenClawInjector {
    const injectIntoRuntimePrompt: bool

    constructor (enabled: bool)
      ensures injectIntoRuntimePrompt == enabled
    {
      injectIntoRuntimePrompt := enabled;
    }

    /** `_write_leaf` and `_append_at`. */
    method WriteLeaf(parent: HostDict, leaf: string, row: Row)
      requires parent.Valid()
      modifies parent
      ensures parent.Valid() && parent.Repr == old(parent.Repr)
      ensures parent.View() ==
              Dict(old(parent.View()).entries[leaf := Text(LeafText(row, EntryOf(old(parent.View()), leaf)))])
    {
      var text := row.content;
      if !Overwrites(row.mode) && leaf in parent.entries && parent.entries[leaf].TextSlot? &&
         parent.entries[leaf].s != "" {
        text := parent.entries[leaf].s + "\n" + row.content;
      }
      parent.Put(leaf, TextSlot(text));
    }

    /** One step down: walk into the dict at `key`, which is the only entry whose tree changes. */
    method ApplyToChild(node: HostDict, key: string, rest: seq<string>, row: Row)
      requires node.Valid() && key in node.entries && node.entries[key].DictSlot? && |rest| > 0
      modifies node.Repr
      ensures node.Valid() && fresh(node.Repr - old(node.Repr)) && node.entries == old(node.entries)
      ensures node.View() == Dict(old(node.View()).entries[key := Write(old(node.View()).entries[key], rest, row)])
      decreases |rest|, 1
    {
      ghost var before := node.View();
      var child := node.entries[key].d;
      assert before.entries[key] == child.View();
      ApplySegments(child, rest, row);
      label walked:
      node.Repr := node.Repr + child.Repr;
      assert child.Valid() && child.View() == old@walked(child.View());
      forall k | k in node.entries && k != key && node.entries[k].DictSlot?
        ensures node.entries[k].d.Repr == old(node.entries[k].d.Repr) && node.entries[k].d.Repr !! child.Repr
        ensures node.entries[k].d.Valid() && node.entries[k].d.View() == before.entries[k]
      {
        assert before.entries[k] == old(node.entries[k].d.View());
      }
      assert node.Valid();
      assert node.View().entries == before.entries[key := Write(before.entries[key], rest, row)];
    }

    method ApplySegments(node: HostDict, segments: seq<string>, row: Row)
      requires node.Valid() && |segments| > 0
      modifies node.Repr
      ensures node.Valid() && fresh(node.Repr - old(node.Repr))
      ensures node.View() == Write(old(node.View()), segments, row)
      decreases |segments|, 0
    {
      var head, rest := segments[0], segments[1..];
      if head == "*" {
        if |rest| > 0 {
          ApplyToDictChildren(node, rest, row);
        } else {
          WriteEveryLeaf(node, row);
        }
        return;
      }
      if |rest| == 0 {
        WriteLeaf(node, head, row);
        return;
      }
      ghost var before := node.View();
      if head !in node.entries || !node.entries[head].DictSlot? {
        var nxt := new HostDict();
        node.Attach(head, nxt);
      } else {
        assert before.entries[head := DictAt(before, head)] == before.entries;
      }
      assert node.View().entries == before.entries[head := DictAt(before, head)];
      ApplyToChild(node, head, rest, row);
      assert node.View().entries == before.entries[head := Write(DictAt(before, head), rest, row)];
    }

    /** The mid-path wildcard: every dict-valued child, each once. */
    method ApplyToDictChildren(node: HostDict, rest: seq<string>, row: Row)
      requires node.Valid() && |rest| > 0
      modifies node.Repr
      ensures node.Valid() && fresh(node.Repr - old(node.Repr))
      ensures node.View() == Write(old(node.View()), ["*"] + rest, row)
      decreases |rest|, 2
    {
      ghost var before := node.View().entries;
      ChildrenWrittenEnds(before, rest, row);
      var todo := node.entries.Keys;
      while todo != {}
        invariant node.Valid() && fresh(node.Repr - old(node.Repr)) && node.entries == old(node.entries)
        invariant todo <= before.Keys
        invariant node.View() == Dict(ChildrenWritten(before, todo, rest, row))
        decreases todo
      {
        var key :| key in todo;
        ChildrenWrittenStep(before, todo, key, rest, row);
        if node.entries[key].DictSlot? {
          ApplyToChild(node, key, rest, row);
        }
        todo := todo - {key};
      }
    }

    /** The trailing wildcard: every key there is. */
    method WriteEveryLeaf(node: HostDict, row: Row)
      requires node.Valid()
      modifies node
      ensures node.Valid() && node.Repr == old(node.Repr)
      ensures node.View() == Write(old(node.View()), ["*"], row)
    {
      ghost var before := node.View().entries;
      LeavesWrittenEnds(before, row);
      var todo := node.entries.Keys;
      while todo != {}
        invariant node.Valid() && node.Repr == old(node.Repr)
        invariant todo <= before.Keys
        invariant node.View() == Dict(LeavesWritten(before, todo, row))
        decreases todo
      {
        var key :| key in todo;
        LeavesWrittenStep(before, todo, key, row);
        WriteLeaf(node, key, row);
        todo := todo - {key};
      }
    }

    method ApplyOne(out: HostDict, row: Row)
      requires out.Valid()
      modifies out.Repr
      ensures out.Valid() && fresh(out.Repr - old(out.Repr))
      ensures out.View() == ApplyRow(old(out.View()), row, injectIntoRuntimePrompt)
    {
      if !injectIntoRuntimePrompt && "runtime_prompt." <= row.target {
        return;
      }
      var segments := Segments(row.target);
      if |segments| == 0 {
        return;
      }
      ApplySegments(out, segments, row);
    }

    /** `copy.deepcopy`: a new tree that shares nothing with the old one. */
    method DeepCopy(host: HostDict) returns (copy: HostDict)
      requires host.Valid()
      ensures copy.Valid() && fresh(copy.Repr)
      ensures copy.View() == host.View()
      decreases host.Repr, 1
    {
      copy := new HostDict();
      ghost var tree := host.View();
      var todo := host.entries.Keys;
      while todo != {}
        invariant copy.Valid() && fresh(copy.Repr)
        invariant todo <= tree.entries.Keys
        invariant copy.View().entries == map k | k in tree.entries && k !in todo :: tree.entries[k]
        decreases todo
      {
        var key :| key in todo;
        CopyEntry(host, key, copy);
        todo := todo - {key};
      }
      assert copy.View().entries == tree.entries;
    }

    method CopyEntry(host: HostDict, key: string, copy: HostDict)
      requires host.Valid() && key in host.entries && copy.Valid() && copy !in host.Repr
      modifies copy
      ensures copy.Valid() && fresh(copy.Repr - old(copy.Repr))
      ensures copy.View() == Dict(old(copy.View()).entries[key := old(host.View()).entries[key]])
      decreases host.Repr, 0
    {
      if host.entries[key].DictSlot? {
        var child := DeepCopy(host.entries[key].d);
        copy.Attach(key, child);
      } else {
        copy.Put(key, host.entries[key]);
      }
    }

    /** `apply`: the caller's context is not in the frame, so it keeps its tree; the result is a new one. */
    method Apply(rows: seq<Row>, hostContext: HostDict) returns (out: HostDict)
      requires hostContext.Valid()
      ensures out.Valid() && fresh(out.Repr)
      ensures out.View() == ApplyRows(hostContext.View(), rows, injectIntoRuntimePrompt)
      ensures hostContext.Valid() && hostContext.View() == old(hostContext.View())
    {
      out := DeepCopy(hostContext);
      ghost var start := out.View();
      for i := 0 to |rows|
        invariant out.Valid() && fresh(out.Repr)
        invariant out.View() == ApplyRows(start, rows[..i], injectIntoRuntimePrompt)
      {
        assert rows[..i + 1][..i] == rows[..i];
        ApplyOne(out, rows[i]);
      }
      assert rows[..|rows|] == rows;
    }
  }
}
