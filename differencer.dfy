/** `get_solely_followers_following` of check_follower.py: reduce the
    followers and the following (each a map from user id to user, of which
    only the username matters) to sets of usernames, and list the followers
    not followed back ("fans") and the followed accounts not following back
    ("fanning"). The lists come from iterating Python sets, so their order is
    unspecified: the model draws the next element arbitrarily. */
module Differencer {

  /** The set comprehension `{m[id].username for id in m}`: the usernames,
      ids discarded, duplicates merged. */
  function Usernames(m: map<int, string>): (names: set<string>)
    ensures forall id | id in m :: m[id] in names
    ensures forall name | name in names :: exists id | id in m :: m[id] == name
  {
    set id | id in m :: m[id]
  }

  /** No username listed twice. */
  predicate Distinct(s: seq<string>) {
    forall i, j | 0 <= i < j < |s| :: s[i] != s[j]
  }

  function Elems(s: seq<string>): set<string> {
    set x | x in s
  }

  /** A list without repetitions has as many entries as it has elements. */
  lemma {:induction false} DistinctLength(s: seq<string>)
    requires Distinct(s)
    ensures |Elems(s)| == |s|
  {
    if s != [] {
      var last := s[|s| - 1];
      var init := s[..|s| - 1];
      assert Distinct(init);
      DistinctLength(init);
      assert Elems(s) == Elems(init) + {last} by {
        assert s == init + [last];
      }
      assert last !in Elems(init);
    }
  }

  /** A set splits into what it shares with another set and the rest. */
  lemma CommonSplit(a: set<string>, b: set<string>)
    ensures |a - (a * b)| + |a * b| == |a|
  {
    assert a == (a - (a * b)) + (a * b);
    assert (a - (a * b)) !! (a * b);
  }

  /** The list comprehension `[name for name in names if name not in common]`,
      visiting `names` in an unspecified order. */
  method ListWithout(names: set<string>, common: set<string>) returns (out: seq<string>)
    ensures Distinct(out)
    ensures Elems(out) == names - common
    ensures |out| == |names - common|
  {
    out := [];
    var rest := names;
    while rest != {}
      invariant rest <= names
      invariant Elems(out) == (names - rest) - common
      invariant Distinct(out)
      decreases rest
    {
      var name :| name in rest;
      if name !in common {
        assert name !in Elems(out);
        assert Elems(out + [name]) == Elems(out) + {name};
        out := out + [name];
      }
      rest := rest - {name};
    }
    DistinctLength(out);
  }

  /** `get_solely_followers_following`: fans are exactly the follower
      usernames that are not following usernames, fanning exactly the
      converse; neither list repeats a name, the two are disjoint, each
      list and the common part together account for all usernames of its
      side, and equal username sets leave both lists empty. */
  method SolelyFollowersFollowing(followers: map<int, string>, following: map<int, string>)
    returns (fans: seq<string>, fanning: seq<string>)
    ensures Distinct(fans) && Distinct(fanning)
    ensures Elems(fans) == Usernames(followers) - Usernames(following)
    ensures Elems(fanning) == Usernames(following) - Usernames(followers)
    ensures Elems(fans) !! Elems(fanning)
    ensures |fans| + |Usernames(followers) * Usernames(following)| == |Usernames(followers)|
    ensures |fanning| + |Usernames(followers) * Usernames(following)| == |Usernames(following)|
    ensures Usernames(followers) == Usernames(following) ==> fans == [] && fanning == []
  {
    var followerNames := Usernames(followers);
    var followingNames := Usernames(following);
    var common := followerNames * followingNames;
    fans := ListWithout(followerNames, common);
    fanning := ListWithout(followingNames, common);
    CommonSplit(followerNames, followingNames);
    CommonSplit(followingNames, followerNames);
    assert followingNames * followerNames == common;
    assert followerNames - common == followerNames - followingNames;
    assert followingNames - common == followingNames - followerNames;
  }

  /** A mixed example: followers alice, bob and carol,
      following bob and dave. */
  method ScenarioMixed() returns (fans: seq<string>, fanning: seq<string>)
    ensures Elems(fans) == {"alice", "carol"} && |fans| == 2
    ensures fanning == ["dave"]
  {
    var followers := map[1 := "alice", 2 := "bob", 3 := "carol"];
    var following := map[2 := "bob", 4 := "dave"];
    assert followers[1] == "alice" && followers[2] == "bob" && followers[3] == "carol";
    assert Usernames(followers) == {"alice", "bob", "carol"};
    assert following[2] == "bob" && following[4] == "dave";
    assert Usernames(following) == {"bob", "dave"};
    fans, fanning := SolelyFollowersFollowing(followers, following);
    assert Elems(fanning) == {"dave"};
    assert "dave" in fanning;
  }
}
