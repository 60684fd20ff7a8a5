/** The embedding of layout owners onto device tiles (crates/ipu-codegen/src/tensor/owners.rs).

    Owner ordinals are rotated within their domain and then mapped to tiles. The module proves
    that a map that the program validator accepts gives each owner a tile of its own. */
module TileOwners {
  import opened StorageAccounting
  import DivMod

  const MAX_U16: nat := 0xFFFF

  datatype OwnerMap = OwnerMap(rotation: nat, embedding: Option<seq<nat>>) {
    /** The owners that can be named: all tiles, or the length of the embedding if it is a
        16-bit number. */
    function Domain(tiles: nat): Option<nat> {
      if embedding.None? then Some(tiles)
      else if |embedding.value| <= MAX_U16 then Some(|embedding.value|)
      else None
    }

    function Tile(owner: nat, tiles: nat): Option<nat> {
      var domain := Domain(tiles);
      if domain.None? || owner >= domain.value || rotation >= domain.value then None
      else
        var ordinal := (owner + rotation) % domain.value;
        var tile := if embedding.None? then ordinal else embedding.value[ordinal];
        if tile < tiles then Some(tile) else None
    }

    ghost predicate Accepts(owners: nat, tiles: nat) {
      && 0 < owners <= tiles
      && (embedding.None? ==> rotation < tiles)
      && (embedding.Some? ==>
            && owners <= |embedding.value| < 0x1_0000 && rotation < |embedding.value|
            && (forall i :: 0 <= i < |embedding.value| ==> embedding.value[i] < tiles)
            && (forall i, j :: 0 <= i < j < |embedding.value| ==> embedding.value[i] != embedding.value[j]))
    }
  }

  /** The embedding's tiles are on the device, and none is named twice. */
  method Validate(m: OwnerMap, owners: nat, tiles: nat) returns (ok: bool)
    ensures ok <==> m.Accepts(owners, tiles)
  {
    var domain := m.Domain(tiles);
    if domain.None? || owners == 0 || tiles == 0 || owners > tiles || owners > domain.value || m.rotation >= domain.value {
      return false;
    }
    if m.embedding.Some? {
      var embedding := m.embedding.value;
      var used: set<nat> := {};
      for i := 0 to |embedding|
        invariant used == set j | 0 <= j < i :: embedding[j]
        invariant forall j :: 0 <= j < i ==> embedding[j] < tiles
        invariant forall j, k :: 0 <= j < k < i ==> embedding[j] != embedding[k]
      {
        if embedding[i] >= tiles || embedding[i] in used {
          return false;
        }
        used := used + {embedding[i]};
      }
    }
    ok := true;
  }

  /** Every owner of a map that is accepted has a tile, and no two share one. */
  lemma OwnersAreApart(m: OwnerMap, owners: nat, tiles: nat, a: nat, b: nat)
    requires m.Accepts(owners, tiles) && a < owners && b < owners
    ensures m.Tile(a, tiles).Some? && m.Tile(a, tiles).value < tiles
    ensures a != b ==> m.Tile(a, tiles) != m.Tile(b, tiles)
  {
    RotatesOnce(a, b, m.rotation, m.Domain(tiles).value);
  }

  /** An owner below the domain is moved on by the rotation, from the end of the domain back to
      its start, and takes the tile at that place. */
  lemma TileIsRotated(m: OwnerMap, owners: nat, tiles: nat, owner: nat)
    requires m.Accepts(owners, tiles)
    ensures var domain := if m.embedding.Some? then |m.embedding.value| else tiles;
      var place := if owner + m.rotation < domain then owner + m.rotation else owner + m.rotation - domain;
      m.Tile(owner, tiles) ==
      if owner >= domain then None else if m.embedding.Some? then Some(m.embedding.value[place]) else Some(place)
    ensures m.embedding.Some? ==> |m.embedding.value| < 0x1_0000
  {
    var domain := m.Domain(tiles).value;
    if owner < domain {
      Wraps(owner + m.rotation, domain);
    }
  }

  lemma RotatesOnce(a: nat, b: nat, rotation: nat, domain: nat)
    requires a < domain && b < domain && rotation < domain
    ensures a != b ==> (a + rotation) % domain != (b + rotation) % domain
  {
    Wraps(a + rotation, domain);
    Wraps(b + rotation, domain);
  }

  lemma Wraps(x: nat, domain: nat)
    requires x < 2 * domain
    ensures x % domain == if x < domain then x else x - domain
  {
    if x < domain {
      DivMod.QuotientIs(x, domain, 0, x);
    } else {
      DivMod.QuotientIs(x, domain, 1, x - domain);
    }
  }
}
