/**
 bitbake/lib/bb/data_smart.py: the names that `setVarFlag` collects in `__exportlist`. They are kept in
 a set object, which the copy-on-write dictionaries share.
 */
module ExportList {

  class NameSet {
    var names: set<string>

    constructor ()
      ensures names == {}
    {
      names := {};
    }
  }

  /** What a dictionary has for `__exportlist`: nothing, or flags with or without a content. */
  datatype Entry = Absent | Present(content: NameSet?)

  /** `DataSmart.dict` as far as this variable goes; `parent` is the dictionary copied from. */
  class Dict {
    var entry: Entry
    const parent: Dict?
    /** This dictionary and those of its ancestors. */
    ghost const dicts: set<Dict>

    ghost predicate Valid()
      reads dicts
      decreases dicts
    {
      && this in dicts
      && (parent != null ==>
            parent in dicts && parent.dicts <= dicts && this !in parent.dicts && parent.Valid())
    }

    /** What `_findVar` sees. */
    ghost function Nearest(): Entry
      requires Valid()
      reads dicts
      decreases dicts
    {
      if entry.Present? then entry else if parent == null then Absent else parent.Nearest()
    }

    /** The set that a lookup finds. */
    ghost function List(): NameSet?
      requires Valid()
      reads dicts
    {
      if Nearest().Present? then Nearest().content else null
    }

    ghost function Exports(): set<string>
      requires Valid()
      reads dicts, List()
    {
      if List() == null then {} else List().names
    }

    constructor (parent: Dict?)
      requires parent != null ==> parent.Valid()
      ensures Valid() && this.parent == parent && entry == Absent
      ensures dicts == {this} + if parent == null then {} else parent.dicts
    {
      entry, this.parent := Absent, parent;
      dicts := {this} + if parent == null then {} else parent.dicts;
    }

    method Find() returns (found: Entry)
      requires Valid()
      ensures found == Nearest()
    {
      var dest: Dict? := this;
      while dest != null
        invariant dest != null ==> dest.Valid() && Nearest() == dest.Nearest()
        invariant dest == null ==> Nearest() == Absent
        decreases if dest == null then {} else dest.dicts
      {
        if dest.entry.Present? {
          return dest.entry;
        }
        dest := dest.parent;
      }
      found := Absent;
    }

    /**
     The end of `setVarFlag` for `export` and `unexport`. The shadow copy of the entry is shallow: a set
     that an ancestor has becomes the content here as well, and it is that set the name is added to.
     */
    method Export(v: string)
      requires Valid()
      modifies this, List()
      ensures Valid() && Exports() == old(Exports()) + {v} && entry.Present? && List() == entry.content
      ensures if old(List()) == null then fresh(List()) else List() == old(List())
    {
      if entry.Absent? {
        var found := Find();
        entry := Present(if found.Present? then found.content else null);
      }
      assert entry.content == old(List()) && Nearest() == entry;
      if entry.content == null {
        var content := new NameSet();
        entry := Present(content);
      }
      assert old(List()) == null ==> old(Exports()) == {};
      assert old(List()) != null ==> old(Exports()) == old(List().names);
      assert old(List()) != null ==> entry.content.names == old(List().names);
      assert old(List()) == null ==> entry.content.names == {};
      entry.content.names := entry.content.names + {v};
      assert List() == entry.content;
    }
  }

  /**
   An export set on a copy also shows up in the original, exactly if the original already had a list of
   exported names, and the name was not among them.
   */
  method ExportInCopy(original: Dict, v: string) returns (copy: Dict)
    requires original.Valid()
    modifies original.List()
    ensures copy.Valid() && copy.parent == original && fresh(copy)
    ensures copy.Exports() == old(original.Exports()) + {v}
    ensures original.Valid() && original.List() == old(original.List())
    ensures original.Exports() == old(original.Exports()) <==>
      old(original.List()) == null || v in old(original.Exports())
    ensures old(original.List()) != null ==> original.Exports() == old(original.Exports()) + {v}
  {
    copy := new Dict(original);
    assert copy.Nearest() == original.Nearest();
    assert copy.List() == old(original.List());
    assert copy.List() != null ==> copy.List().names == old(original.List().names);
    assert copy.Exports() == old(original.Exports());
    copy.Export(v);
    assert original.Nearest() == old(original.Nearest());
  }
}
