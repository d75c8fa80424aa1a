/**
 * The helper functions of the URL shortener: looking a user up by email,
 * generating random short codes, the logged-in check, filtering the URL
 * database by owner, and counting distinct visitors.
 */
module Helpers {

  import opened Wrappers
  import opened Tables

  /** A registered account. The users object stores it under its own id. */
  datatype User = User(id: string, email: string, password: string)

  /** A short-URL record. The URL database stores it under its short code. */
  datatype Url = Url(longURL: string, userId: string)

  /** One traversal of a short link; `visitorId` comes from the visitor's long-lived cookie. */
  datatype Visit = Visit(visitorId: string, timestamp: int)

  // ---------------------------------------------------------------------------
  // getUserByEmail

  /** The first user, in iteration order, whose email is exactly `email`. */
  function FirstByEmail(database: Table<User>, email: string): Option<User>
  {
    if |database| == 0 then None
    else if database[0].1.email == email then Some(database[0].1)
    else FirstByEmail(database[1..], email)
  }

  /** No user is found exactly when no stored user has the email. */
  lemma {:induction false} FirstByEmailNone(database: Table<User>, email: string)
    ensures FirstByEmail(database, email) == None <==>
            forall i :: 0 <= i < |database| ==> database[i].1.email != email
  {
    if |database| > 0 {
      FirstByEmailNone(database[1..], email);
      assert forall i :: 1 <= i < |database| ==> database[i] == database[1..][i - 1];
    }
  }

  /** A found user is stored in the database, has exactly that email, and no earlier user has it. */
  lemma {:induction false} FirstByEmailFound(database: Table<User>, email: string, u: User)
    requires FirstByEmail(database, email) == Some(u)
    ensures u.email == email
    ensures exists i :: 0 <= i < |database| && database[i].1 == u &&
                        forall j :: 0 <= j < i ==> database[j].1.email != email
  {
    if database[0].1.email == email {
      assert database[0].1 == u;
    } else {
      FirstByEmailFound(database[1..], email, u);
      var i :| 0 <= i < |database[1..]| && database[1..][i].1 == u &&
               forall j :: 0 <= j < i ==> database[1..][j].1.email != email;
      assert database[i + 1].1 == u;
      forall j | 0 <= j < i + 1 ensures database[j].1.email != email {
        if j > 0 { assert database[j] == database[1..][j - 1]; }
      }
    }
  }

  /** When several users share the email, the one met first in iteration order is returned. */
  lemma {:induction false} FirstByEmailIsFirstMatch(database: Table<User>, email: string, i: int)
    requires 0 <= i < |database| && database[i].1.email == email
    requires forall j :: 0 <= j < i ==> database[j].1.email != email
    ensures FirstByEmail(database, email) == Some(database[i].1)
  {
    if i > 0 {
      FirstByEmailIsFirstMatch(database[1..], email, i - 1);
    }
  }

  /** A found user is one of the values of the users object. */
  lemma FirstByEmailStored(database: Table<User>, email: string, u: User)
    requires DistinctKeys(database)
    requires FirstByEmail(database, email) == Some(u)
    ensures u in ToMap(database).Values
  {
    FirstByEmailFound(database, email, u);
    var i :| 0 <= i < |database| && database[i].1 == u &&
             forall j :: 0 <= j < i ==> database[j].1.email != email;
    ToMapAt(database, i);
  }

  /** `getUserByEmail`: scan the users in iteration order and return the first whose email matches. */
  method GetUserByEmail(email: string, database: Table<User>) returns (user: Option<User>)
    ensures user == FirstByEmail(database, email)
  {
    // every entry of a Table is an own property, so the hasOwnProperty guard always passes
    for i := 0 to |database|
      invariant FirstByEmail(database[i..], email) == FirstByEmail(database, email)
    {
      if database[i].1.email == email {
        return Some(database[i].1);
      }
      assert database[i..][1..] == database[i + 1..];
    }
    return None;
  }

  // ---------------------------------------------------------------------------
  // generateRandomString

  /** The character at position `k` of the alphabet: 26 upper-case letters, 26 lower-case letters, 10 digits. */
  function AlphabetChar(k: int): char
    requires 0 <= k < 62
  {
    if k < 26 then ('A' as int + k) as char
    else if k < 52 then ('a' as int + (k - 26)) as char
    else ('0' as int + (k - 52)) as char
  }

  /** The 62 characters codes are drawn from. */
  function Alphabet(): (s: string)
    ensures |s| == 62
  {
    seq(62, AlphabetChar)
  }

  /** The alphabet is the string "ABC...XYZabc...xyz0123456789", written as its three runs. */
  lemma AlphabetIsSourceString()
    ensures Alphabet() == "ABCDEFGHIJKLMNOPQRSTUVWXYZ" + "abcdefghijklmnopqrstuvwxyz" + "0123456789"
  {
  }

  /** Each draw stands for one `Math.floor(Math.random() * input.length)`: a position in Alphabet(). */
  predicate ValidDraws(draws: seq<int>)
  {
    forall k :: 0 <= k < |draws| ==> 0 <= draws[k] < |Alphabet()|
  }

  /** The code spelled by a sequence of draws, one character per draw. */
  function Spell(draws: seq<int>): (s: string)
    requires ValidDraws(draws)
    ensures |s| == |draws|
    ensures forall k :: 0 <= k < |s| ==> s[k] == Alphabet()[draws[k]]
  {
    if |draws| == 0 then ""
    else Spell(draws[..|draws| - 1]) + [Alphabet()[draws[|draws| - 1]]]
  }

  /** The position of a character in Alphabet(), or -1 when it is not one of the 62. */
  function IndexOf(c: char): (k: int)
    ensures -1 <= k < |Alphabet()|
    ensures k >= 0 ==> Alphabet()[k] == c
  {
    if 'A' <= c <= 'Z' then c as int - 'A' as int
    else if 'a' <= c <= 'z' then 26 + (c as int - 'a' as int)
    else if '0' <= c <= '9' then 52 + (c as int - '0' as int)
    else -1
  }

  /** Reading a character of the alphabet back gives its position. */
  lemma IndexOfAlphabet(k: int)
    requires 0 <= k < |Alphabet()|
    ensures IndexOf(Alphabet()[k]) == k
  {
  }

  /** Every character of the alphabet has a position. */
  lemma IndexOfInAlphabet(c: char)
    requires c in Alphabet()
    ensures IndexOf(c) >= 0
  {
  }

  /** The draws a code was spelled from, read back character by character. */
  function Unspell(s: string): (draws: seq<int>)
    ensures |draws| == |s|
  {
    if |s| == 0 then [] else Unspell(s[..|s| - 1]) + [IndexOf(s[|s| - 1])]
  }

  /** Distinct draw sequences spell distinct codes: the code determines its draws. */
  lemma {:induction false} UnspellSpell(draws: seq<int>)
    requires ValidDraws(draws)
    ensures Unspell(Spell(draws)) == draws
  {
    if |draws| > 0 {
      var init := draws[..|draws| - 1];
      var s := Spell(draws);
      assert s[..|s| - 1] == Spell(init);
      UnspellSpell(init);
      IndexOfAlphabet(draws[|draws| - 1]);
      assert draws == init + [draws[|draws| - 1]];
    }
  }

  /** Every string over the alphabet is spelled by some draws: each code of length n is reachable. */
  lemma {:induction false} SpellUnspell(s: string)
    requires forall k :: 0 <= k < |s| ==> s[k] in Alphabet()
    ensures ValidDraws(Unspell(s)) && Spell(Unspell(s)) == s
  {
    if |s| > 0 {
      var init, c := s[..|s| - 1], s[|s| - 1];
      SpellUnspell(init);
      IndexOfInAlphabet(c);
      var d := Unspell(s);
      assert d == Unspell(init) + [IndexOf(c)];
      assert Spell(d) == Spell(Unspell(init)) + [Alphabet()[IndexOf(c)]] by {
        assert d[..|d| - 1] == Unspell(init);
      }
      assert s == init + [c];
    }
  }

  /**
   * `generateRandomString(length)`: append one alphabet character per draw,
   * `length` times; a length of zero or less gives the empty string.
   */
  method GenerateRandomString(length: int, draws: seq<int>) returns (output: string)
    requires ValidDraws(draws)
    requires length <= |draws|
    ensures |output| == if length <= 0 then 0 else length
    ensures forall k :: 0 <= k < |output| ==> output[k] in Alphabet()
    ensures output == Spell(draws[..|output|])
  {
    output := "";
    var i := 0;
    while i < length
      invariant 0 <= i && (length <= 0 ==> i == 0) && (length > 0 ==> i <= length)
      invariant output == Spell(draws[..i])
    {
      assert draws[..i + 1][..i] == draws[..i];
      output := output + [Alphabet()[draws[i]]];
      i := i + 1;
    }
  }

  // ---------------------------------------------------------------------------
  // isUserLoggedIn

  /** JavaScript truthiness of the session's user id: present and not the empty string. */
  predicate Truthy(sessionUserId: Option<string>)
  {
    match sessionUserId
    case None => false
    case Some(id) => id != ""
  }

  /** `isUserLoggedIn`: the session names a user id that is a property of the users object. */
  function IsUserLoggedIn(sessionUserId: Option<string>, users: Table<User>): (loggedIn: bool)
    ensures loggedIn <==>
            sessionUserId.Some? && sessionUserId.value != "" && sessionUserId.value in ToMap(users)
  {
    if Truthy(sessionUserId) && HasKey(users, sessionUserId.value) then true else false
  }

  /** How registration fills the users object: every record is stored under its own id, a non-empty code. */
  predicate KeyedById(users: Table<User>)
  {
    forall i :: 0 <= i < |users| ==> users[i].0 == users[i].1.id && users[i].0 != ""
  }

  /** A session carrying the id of the user found by email is a logged-in session. */
  lemma FoundUserLogsIn(users: Table<User>, email: string, u: User)
    requires KeyedById(users)
    requires FirstByEmail(users, email) == Some(u)
    ensures IsUserLoggedIn(Some(u.id), users)
  {
    FirstByEmailFound(users, email, u);
    var i :| 0 <= i < |users| && users[i].1 == u &&
             forall j :: 0 <= j < i ==> users[j].1.email != email;
    assert users[i].0 == u.id;
  }

  // ---------------------------------------------------------------------------
  // urlsForUser

  /** The URL database filtered to the entries whose `userId` is `id`, built by assignment in key order. */
  function OwnedBy(id: string, urlDatabase: Table<Url>): Table<Url>
  {
    if |urlDatabase| == 0 then []
    else
      var rest := OwnedBy(id, urlDatabase[..|urlDatabase| - 1]);
      var (key, url) := urlDatabase[|urlDatabase| - 1];
      if url.userId == id then Put(rest, key, url) else rest
  }

  /** Every entry of the filtered object is an unchanged database entry, under the same key, owned by `id`. */
  lemma {:induction false} OwnedBySound(id: string, urlDatabase: Table<Url>)
    ensures forall e :: e in OwnedBy(id, urlDatabase) ==> e in urlDatabase && e.1.userId == id
  {
    if |urlDatabase| > 0 {
      var init, last := urlDatabase[..|urlDatabase| - 1], urlDatabase[|urlDatabase| - 1];
      assert urlDatabase == init + [last];
      OwnedBySound(id, init);
      PutKeys(OwnedBy(id, init), last.0, last.1);
    }
  }

  /**
   * The filtered object is a valid object whose keys are exactly the database
   * keys owned by `id`, each mapped to the database's own record.
   */
  lemma {:induction false} OwnedByExactly(id: string, urlDatabase: Table<Url>)
    requires DistinctKeys(urlDatabase)
    ensures DistinctKeys(OwnedBy(id, urlDatabase))
    ensures forall k :: k in ToMap(OwnedBy(id, urlDatabase)) <==>
                        k in ToMap(urlDatabase) && ToMap(urlDatabase)[k].userId == id
    ensures forall k :: k in ToMap(OwnedBy(id, urlDatabase)) ==>
                        ToMap(OwnedBy(id, urlDatabase))[k] == ToMap(urlDatabase)[k]
  {
    if |urlDatabase| > 0 {
      var init, last := urlDatabase[..|urlDatabase| - 1], urlDatabase[|urlDatabase| - 1];
      assert urlDatabase == init + [last];
      assert DistinctKeys(init);
      OwnedByExactly(id, init);
      ToMapSnoc(init, last.0, last.1);
      assert last.0 !in ToMap(init);
      if last.1.userId == id {
        PutToMap(OwnedBy(id, init), last.0, last.1);
      }
    }
  }

  /** `urlsForUser`: copy every database entry whose `userId` is `id` into a fresh object. */
  method UrlsForUser(id: string, urlDatabase: Table<Url>) returns (filteredUrls: Table<Url>)
    ensures filteredUrls == OwnedBy(id, urlDatabase)
  {
    filteredUrls := [];
    for i := 0 to |urlDatabase|
      invariant filteredUrls == OwnedBy(id, urlDatabase[..i])
    {
      assert urlDatabase[..i + 1][..i] == urlDatabase[..i];
      var (key, url) := urlDatabase[i];
      if url.userId == id {
        filteredUrls := Put(filteredUrls, key, url);
      }
    }
    assert urlDatabase[..|urlDatabase|] == urlDatabase;
  }

  // ---------------------------------------------------------------------------
  // countVisitors

  /** The distinct visitor ids in a visit history; visits are the same visitor whatever their times. */
  function VisitorIds(visits: seq<Visit>): set<string>
  {
    set v | v in visits :: v.visitorId
  }

  /** No id is listed twice. */
  predicate NoDuplicates(ids: seq<string>)
  {
    forall i, j :: 0 <= i < j < |ids| ==> ids[i] != ids[j]
  }

  /** A list without duplicates has as many elements as the set of its elements. */
  lemma {:induction false} DistinctCount(ids: seq<string>)
    requires NoDuplicates(ids)
    ensures |set x | x in ids| == |ids|
  {
    if |ids| > 0 {
      var init, last := ids[..|ids| - 1], ids[|ids| - 1];
      assert ids == init + [last];
      assert NoDuplicates(init);
      DistinctCount(init);
      assert last !in init;
      assert (set x | x in ids) == (set x | x in init) + {last};
    }
  }

  /** One more visit adds its visitor to the distinct ids, and raises the count only for a new visitor. */
  lemma VisitorIdsSnoc(visits: seq<Visit>, v: Visit)
    ensures VisitorIds(visits + [v]) == VisitorIds(visits) + {v.visitorId}
    ensures |VisitorIds(visits + [v])| ==
            |VisitorIds(visits)| + if v.visitorId in VisitorIds(visits) then 0 else 1
  {
    assert VisitorIds(visits + [v]) == VisitorIds(visits) + {v.visitorId} by {
      forall x | x in VisitorIds(visits + [v]) ensures x in VisitorIds(visits) + {v.visitorId} {
        var w :| w in visits + [v] && w.visitorId == x;
        if w != v { assert w in visits; }
      }
    }
  }

  /** There are never more distinct visitors than visits. */
  lemma {:induction false} VisitorCountBound(visits: seq<Visit>)
    ensures |VisitorIds(visits)| <= |visits|
  {
    if |visits| > 0 {
      var init := visits[..|visits| - 1];
      assert visits == init + [visits[|visits| - 1]];
      VisitorCountBound(init);
      VisitorIdsSnoc(init, visits[|visits| - 1]);
    }
  }

  /** The count is zero exactly for an empty history. */
  lemma VisitorCountZero(visits: seq<Visit>)
    ensures |VisitorIds(visits)| == 0 <==> visits == []
  {
    if visits != [] {
      assert visits[0].visitorId in VisitorIds(visits);
    }
  }

  /** `countVisitors`: collect each visitor id once, in order of first visit, and return how many there are. */
  method CountVisitors(visits: seq<Visit>) returns (count: nat)
    ensures count == |VisitorIds(visits)|
  {
    var visitorIds: seq<string> := [];
    for i := 0 to |visits|
      invariant NoDuplicates(visitorIds)
      invariant forall x :: x in visitorIds <==> x in VisitorIds(visits[..i])
    {
      assert visits[..i + 1] == visits[..i] + [visits[i]];
      VisitorIdsSnoc(visits[..i], visits[i]);
      if visits[i].visitorId !in visitorIds {
        visitorIds := visitorIds + [visits[i].visitorId];
      }
    }
    assert visits[..|visits|] == visits;
    // no duplicates, and the same ids as the history: the length is the number of distinct visitors
    assert (set x | x in visitorIds) == VisitorIds(visits);
    DistinctCount(visitorIds);
    count := |visitorIds|;
  }

  /** Visits by "a", "a" and "b" count two visitors, whatever their timestamps. */
  lemma VisitorCountExample(t1: int, t2: int, t3: int)
    ensures |VisitorIds([Visit("a", t1), Visit("a", t2), Visit("b", t3)])| == 2
  {
    var visits := [Visit("a", t1), Visit("a", t2), Visit("b", t3)];
    assert VisitorIds(visits) == {"a", "b"} by {
      assert visits[0] in visits && visits[2] in visits;
    }
  }
}
