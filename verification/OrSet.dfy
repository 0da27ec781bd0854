/** The observed-remove set as the program holds it. */
module OrSet {
  import opened Bytes
  import OrSetModel

  /** The set as the program holds it: two maps updated in place. */
  class Set {
    var adds: map<bytes, set<bytes>>
    var removes: set<bytes>

    ghost function View(): OrSetModel.State
      reads this
    {
      OrSetModel.State(adds, removes)
    }

    constructor ()
      ensures View() == OrSetModel.Empty
    {
      adds, removes := map[], {};
    }

    method Add(elem: bytes, tag: bytes)
      modifies this
      ensures View() == OrSetModel.Add(old(View()), elem, tag)
    {
      if elem !in adds {
        adds := adds[elem := {}];
      }
      adds := adds[elem := adds[elem] + {tag}];
    }

    method Remove(elem: bytes)
      modifies this
      ensures View() == OrSetModel.Remove(old(View()), elem)
    {
      if elem in adds {
        var todo := adds[elem];
        while todo != {}
          invariant adds == old(adds) && todo <= adds[elem]
          invariant removes == old(removes) + (adds[elem] - todo)
        {
          var tag :| tag in todo;
          removes := removes + {tag};
          todo := todo - {tag};
        }
      }
    }

    method Contains(elem: bytes) returns (r: bool)
      ensures r <==> OrSetModel.Contains(View(), elem)
    {
      if elem !in adds {
        return false;
      }
      var todo := adds[elem];
      while todo != {}
        invariant todo <= adds[elem]
        invariant forall tag :: tag in adds[elem] - todo ==> tag in removes
      {
        var tag :| tag in todo;
        if tag !in removes {
          return true;
        }
        todo := todo - {tag};
      }
      return false;
    }

    // Copies the tags the other side has for one element.
    method MergeElem(elem: bytes, tags: set<bytes>)
      modifies this`adds
      ensures adds == old(adds)[elem := OrSetModel.Tags(old(adds), elem) + tags]
    {
      if elem !in adds {
        adds := adds[elem := {}];
      }
      ghost var start := adds;
      var todo := tags;
      while todo != {}
        invariant todo <= tags && adds.Keys == start.Keys
        invariant adds[elem] == start[elem] + (tags - todo)
        invariant forall e :: e in adds && e != elem ==> adds[e] == start[e]
      {
        var tag :| tag in todo;
        adds := adds[elem := adds[elem] + {tag}];
        todo := todo - {tag};
      }
      assert tags - todo == tags;
    }

    method MergeAdds(theirs: map<bytes, set<bytes>>)
      modifies this`adds
      ensures adds == OrSetModel.Join(old(adds), theirs)
    {
      var todo := theirs.Keys;
      OrSetModel.JoinEmpty(adds);
      assert theirs - todo == map[];
      while todo != {}
        invariant todo <= theirs.Keys
        invariant adds == OrSetModel.Join(old(adds), theirs - todo)
      {
        var elem :| elem in todo;
        OrSetModel.JoinStep(old(adds), theirs, todo, elem);
        MergeElem(elem, theirs[elem]);
        todo := todo - {elem};
      }
      assert theirs - todo == theirs;
    }

    method Merge(other: Set)
      requires other != this
      modifies this
      ensures View() == OrSetModel.Merge(old(View()), other.View())
    {
      MergeAdds(other.adds);
      var rest := other.removes;
      while rest != {}
        invariant rest <= other.removes && adds == OrSetModel.Join(old(adds), other.adds)
        invariant removes == old(removes) + (other.removes - rest)
      {
        var tag :| tag in rest;
        removes := removes + {tag};
        rest := rest - {tag};
      }
    }
  }
}
