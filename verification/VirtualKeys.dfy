/** Virtual API keys: the stored comma-separated model list and key rotation. */
module VirtualKeys {
  import opened Text
  import opened Wrappers

  // ---- The allowed_models column ----

  function Clean(parts: seq<string>): (models: seq<string>)
    ensures forall m :: m in models ==> m != "" && Stripped(m)
    ensures forall m, c :: m in models && c in m ==> exists i :: 0 <= i < |parts| && c in parts[i]
  {
    if parts == [] then []
    else
      var m := Strip(parts[0]);
      var rest := Clean(parts[1..]);
      if m != "" then [m] + rest else rest
  }

  /** The model names a stored column grants; an empty list means every model is allowed. */
  function AllowedModels(stored: Option<string>): seq<string> {
    if stored == None || stored == Some("") then [] else Clean(Split(stored.value, ','))
  }

  /** The column a creation request stores for its list of models. */
  function StoredModels(requested: seq<string>): Option<string> {
    if requested == [] then None else Some(Join(requested, ','))
  }

  predicate Canonical(model: string) {
    model != "" && Stripped(model) && ',' !in model
  }

  lemma {:induction false} CleanKeepsCanonical(models: seq<string>)
    requires forall m :: m in models ==> Canonical(m)
    ensures Clean(models) == models
  {
    if models != [] {
      var head := models[0];
      assert Canonical(head);
      StripPadded("", head, "");
      assert "" + head + "" == head;
      CleanKeepsCanonical(models[1..]);
    }
  }

  lemma AllowedAreCanonical(stored: Option<string>)
    ensures forall m :: m in AllowedModels(stored) ==> Canonical(m)
  {
  }

  /** A requested list is granted exactly as asked if and only if each name is non-empty, unpadded and comma-free. */
  lemma RequestedIsGrantedIff(requested: seq<string>)
    ensures AllowedModels(StoredModels(requested)) == requested <==> forall m :: m in requested ==> Canonical(m)
  {
    AllowedAreCanonical(StoredModels(requested));
    if requested != [] && forall m :: m in requested ==> Canonical(m) {
      SplitJoin(requested, ',');
      CleanKeepsCanonical(requested);
      assert Join(requested, ',') != "" by {
        assert requested[0] in requested;
      }
    }
  }

  lemma {:induction false} CleanHolds(parts: seq<string>, m: string)
    ensures m in Clean(parts) <==> m != "" && exists part :: part in parts && Strip(part) == m
  {
    if parts != [] {
      CleanHolds(parts[1..], m);
      assert forall part :: part in parts <==> part == parts[0] || part in parts[1..];
    }
  }

  /** A request without commas grants the requested names without their surrounding blanks, in order, and no others. */
  lemma GrantedAreStripped(requested: seq<string>, m: string)
    requires requested != [] && forall name :: name in requested ==> ',' !in name
    ensures AllowedModels(StoredModels(requested)) == Clean(requested)
    ensures m in AllowedModels(StoredModels(requested)) <==> m != "" && exists name :: name in requested && Strip(name) == m
  {
    SplitJoin(requested, ',');
    CleanHolds(requested, m);
    if Join(requested, ',') == "" {
      assert Split("", ',') == [""] == requested;
      assert Clean(requested) == [] by {
        StripIsEmptyIff("");
      }
    }
  }

  predicate BlankOrComma(c: char) {
    IsSpace(c) || c == ','
  }

  lemma {:induction false} CleanIsEmptyIff(parts: seq<string>)
    ensures Clean(parts) == [] <==> forall part, c :: part in parts && c in part ==> IsSpace(c)
  {
    if parts != [] {
      StripIsEmptyIff(parts[0]);
      CleanIsEmptyIff(parts[1..]);
      assert forall part :: part in parts <==> part == parts[0] || part in parts[1..];
    }
  }

  lemma {:induction false} SplitCharacters(s: string, c: char)
    requires c != ','
    ensures c in s <==> exists part :: part in Split(s, ',') && c in part
  {
    if s == "" {
      assert Split(s, ',') == [""];
    } else {
      var rest := Split(s[1..], ',');
      SplitCharacters(s[1..], c);
      assert c in s <==> c == s[0] || c in s[1..];
      assert rest == [rest[0]] + rest[1..];
      assert forall part :: part in rest <==> part == rest[0] || part in rest[1..];
      if s[0] == ',' {
        assert forall part :: part in Split(s, ',') <==> part == "" || part in rest;
      } else {
        var head := [s[0]] + rest[0];
        assert Split(s, ',') == [head] + rest[1..];
        assert forall part :: part in Split(s, ',') <==> part == head || part in rest[1..];
        assert c in head <==> c == s[0] || c in rest[0];
        assert head in Split(s, ',');
      }
    }
  }

  lemma {:induction false} JoinCharacters(parts: seq<string>, c: char)
    requires c != ','
    ensures c in Join(parts, ',') <==> exists part :: part in parts && c in part
  {
    if parts != [] {
      JoinCharacters(parts[1..], c);
      assert forall part :: part in parts <==> part == parts[0] || part in parts[1..];
    }
  }

  /** A stored column parses to nothing, as an absent one does, exactly when it holds only blanks and commas. */
  lemma StoredIsUnrestrictedIff(stored: string)
    ensures AllowedModels(Some(stored)) == AllowedModels(None) <==> forall c :: c in stored ==> BlankOrComma(c)
  {
    var parts := Split(stored, ',');
    CleanIsEmptyIff(parts);
    forall part, c | part in parts && c in part ensures c != ',' && c in stored {
      assert ',' !in part;
      SplitCharacters(stored, c);
    }
    forall c | c in stored && c != ',' ensures exists part :: part in parts && c in part {
      SplitCharacters(stored, c);
    }
    assert stored == "" ==> AllowedModels(Some(stored)) == [];
  }

  /**
   * A restriction that was asked for is lost, and the key reads like one without any, if and only if every requested name
   * consists of blanks and commas.
   */
  lemma RestrictionIsLostIff(requested: seq<string>)
    requires requested != []
    ensures AllowedModels(StoredModels(requested)) == AllowedModels(StoredModels([]))
       <==> forall m, c :: m in requested && c in m ==> BlankOrComma(c)
  {
    var stored := Join(requested, ',');
    StoredIsUnrestrictedIff(stored);
    forall c | c != ',' ensures c in stored <==> exists m :: m in requested && c in m {
      JoinCharacters(requested, c);
    }
  }

  /** For instance a single blank name. */
  lemma BlankNameLosesRestriction()
    ensures StoredModels([" "]).Some? && AllowedModels(StoredModels([" "])) == []
  {
    RestrictionIsLostIff([" "]);
  }

  /** parse(join(parse(s))) == parse(s) for every stored string, canonical or not. */
  lemma ReparseIsStable(stored: Option<string>)
    ensures AllowedModels(StoredModels(AllowedModels(stored))) == AllowedModels(stored)
  {
    AllowedAreCanonical(stored);
    RequestedIsGrantedIff(AllowedModels(stored));
  }

  // ---- Key records ----

  const SECONDS_PER_DAY := 86400.0
  const RENEWAL_DAYS := 365

  datatype VirtualKey = VirtualKey(
    name: string, tenant: string, environment: string, allowedModels: Option<string>,
    budget: Option<real>, budgetUsed: real, rateLimit: Option<int>, expiresAt: Option<real>, active: bool)

  datatype KeyRequest = KeyRequest(
    name: string, tenant: string, environment: string, models: seq<string>,
    budget: Option<real>, rateLimit: Option<int>, expiresDays: Option<int>)

  datatype User = User(tenant: string, superAdmin: bool)

  datatype KeyError = NotFound | Forbidden | TenantRequired

  /** No lifetime, or one of zero days, means the key never expires. */
  function ExpiryOf(days: Option<int>, now: real): Option<real> {
    if days == None || days == Some(0) then None else Some(now + days.value as real * SECONDS_PER_DAY)
  }

  /** Without a number of days, or with zero, a key never expires; otherwise so many times 86400 seconds later. */
  lemma ExpiryInSeconds(days: int, now: real)
    ensures ExpiryOf(None, now) == None == ExpiryOf(Some(0), now)
    ensures days != 0 ==> ExpiryOf(Some(days), now) == Some(now + days as real * 86400.0)
  {
  }

  /** The record create_virtual_key builds. */
  function Granted(request: KeyRequest, tenant: string, now: real): VirtualKey {
    VirtualKey(request.name, tenant, request.environment, StoredModels(request.models),
               request.budget, 0.0, request.rateLimit, ExpiryOf(request.expiresDays, now), true)
  }

  /** The request rotate_virtual_key derives from an old key: same permissions, a fixed new lifetime. */
  function Renewal(vk: VirtualKey): KeyRequest {
    KeyRequest(vk.name, vk.tenant, vk.environment, AllowedModels(vk.allowedModels), vk.budget, vk.rateLimit, Some(RENEWAL_DAYS))
  }

  function Successor(vk: VirtualKey, now: real): VirtualKey {
    Granted(Renewal(vk), vk.tenant, now)
  }

  /** The key after rotations at the given instants. */
  function SuccessorAfter(vk: VirtualKey, times: seq<real>): VirtualKey {
    if times == [] then vk else Successor(SuccessorAfter(vk, times[..|times| - 1]), times[|times| - 1])
  }

  /**
   * Any number of rotations keeps the permitted models, the budget and the rate limit. The result depends only on the last
   * rotation, and expires 365 days after it whatever the lifetime of the old key was.
   */
  lemma {:induction false} RotationsKeepPermissions(vk: VirtualKey, times: seq<real>)
    ensures var last := SuccessorAfter(vk, times);
      && AllowedModels(last.allowedModels) == AllowedModels(vk.allowedModels)
      && last.name == vk.name && last.tenant == vk.tenant && last.environment == vk.environment
      && last.budget == vk.budget && last.rateLimit == vk.rateLimit
      && (times != [] ==>
            && last == Successor(vk, times[|times| - 1])
            && last.active && last.budgetUsed == 0.0
            && last.expiresAt == Some(times[|times| - 1] + 365.0 * 86400.0))
  {
    if times != [] {
      RotationsKeepPermissions(vk, times[..|times| - 1]);
      ReparseIsStable(vk.allowedModels);
    }
  }

  /** A lost restriction is removed for good by a rotation: the column becomes that of a key without restriction. */
  lemma LostRestrictionIsRotatedAway(request: KeyRequest, tenant: string, now: real, later: real)
    requires request.models != []
    ensures Granted(request, tenant, now).allowedModels.Some?
    ensures Successor(Granted(request, tenant, now), later).allowedModels == None
       <==> forall m, c :: m in request.models && c in m ==> BlankOrComma(c)
  {
    RestrictionIsLostIff(request.models);
  }

  class KeyStore {
    var keys: map<string, VirtualKey>

    /** Creation never stores a key without a tenant. */
    ghost predicate Valid()
      reads this
    {
      forall k :: k in keys ==> keys[k].tenant != ""
    }

    constructor ()
      ensures Valid() && keys == map[]
    {
      keys := map[];
    }

    /** Create a key; a tenant administrator's own tenant overrides the requested one. */
    method Create(id: string, request: KeyRequest, requester: User, now: real) returns (r: Result<VirtualKey, KeyError>)
      requires Valid() && id !in keys
      modifies this
      ensures Valid()
      ensures r.Failure? <==> (if requester.superAdmin then request.tenant else requester.tenant) == ""
      ensures r.Failure? ==> r.error == TenantRequired && keys == old(keys)
      ensures r.Success? ==>
        && r.value == Granted(request, if requester.superAdmin then request.tenant else requester.tenant, now)
        && keys == old(keys)[id := r.value]
      ensures r.Success? && (forall m :: m in request.models ==> Canonical(m)) ==>
        AllowedModels(r.value.allowedModels) == request.models
    {
      var scope := request.tenant;
      var expiresAt := None;
      if request.expiresDays.Some? && request.expiresDays.value != 0 {
        expiresAt := Some(now + request.expiresDays.value as real * SECONDS_PER_DAY);
      }
      if !requester.superAdmin {
        scope := requester.tenant;
      }
      if scope == "" {
        return Failure(TenantRequired);
      }
      var stored := None;
      if request.models != [] {
        stored := Some(Join(request.models, ','));
      }
      RequestedIsGrantedIff(request.models);
      var vk := VirtualKey(request.name, scope, request.environment, stored,
                           request.budget, 0.0, request.rateLimit, expiresAt, true);
      keys := keys[id := vk];
      return Success(vk);
    }

    /** Revoke the old key and create one with the same permissions and a lifetime of 365 days. */
    method Rotate(id: string, newId: string, requester: User, now: real) returns (r: Result<VirtualKey, KeyError>)
      requires Valid() && newId !in keys
      modifies this
      ensures Valid()
      ensures r == (
        if id !in old(keys) then Failure(NotFound)
        else if !requester.superAdmin && old(keys)[id].tenant != requester.tenant then Failure(Forbidden)
        else Success(Successor(old(keys)[id], now)))
      ensures r.Failure? ==> keys == old(keys)
      ensures r.Success? ==> keys == old(keys)[id := old(keys)[id].(active := false)][newId := r.value]
      ensures r.Success? ==> AllowedModels(r.value.allowedModels) == AllowedModels(old(keys)[id].allowedModels)
      ensures r.Success? ==> r.value.expiresAt == Some(now + 365.0 * 86400.0)
    {
      if id !in keys {
        return Failure(NotFound);
      }
      var vk := keys[id];
      if !requester.superAdmin && vk.tenant != requester.tenant {
        return Failure(Forbidden);
      }
      keys := keys[id := vk.(active := false)];
      ReparseIsStable(vk.allowedModels);
      var request := KeyRequest(vk.name, vk.tenant, vk.environment, AllowedModels(vk.allowedModels),
                                vk.budget, vk.rateLimit, Some(RENEWAL_DAYS));
      r := Create(newId, request, requester, now);
    }
  }
}
