/**
  The feature-metadata value the stage consumes: a map from feature name to its
  type and a map from group to the features in that group. Only what the
  type-enforcement stage relies on is modelled: querying the features of one
  type, grouping features by type, and removing features.
 */
module Metadata {

  /** `typeMap` is feature -> type; `groups` is group -> features of that group. */
  datatype FeatureMetadata<T, G(==)> = FeatureMetadata(typeMap: map<string, T>, groups: map<G, set<string>>)

  /** The features in scope. */
  function Features<T, G(==)>(m: FeatureMetadata<T, G>): set<string>
  {
    m.typeMap.Keys
  }

  /** The features whose type is `t` (`get_features(valid_raw_types=[t])`). */
  function FeaturesOf<T(==), G(==)>(m: FeatureMetadata<T, G>, t: T): set<string>
  {
    set f | f in m.typeMap && m.typeMap[f] == t
  }

  /** Type -> features of that type (`get_type_group_map_raw`). */
  function GroupByType<T(==)>(typeMap: map<string, T>): map<T, set<string>>
  {
    map t | t in typeMap.Values :: set f | f in typeMap && typeMap[f] == t
  }

  /** No group mentions a feature that is not tracked. */
  ghost predicate GroupsTracked<T, G>(m: FeatureMetadata<T, G>)
  {
    forall g, f :: g in m.groups && f in m.groups[g] ==> f in m.typeMap
  }

  /** Every tracked feature is in exactly one group, and groups mention only tracked features. */
  ghost predicate Partitioned<T, G>(m: FeatureMetadata<T, G>)
  {
    && GroupsTracked(m)
    && (forall f :: f in m.typeMap ==> exists g :: g in m.groups && f in m.groups[g])
    && (forall g1, g2, f :: g1 in m.groups && g2 in m.groups && f in m.groups[g1] && f in m.groups[g2] ==> g1 == g2)
  }

  /** Grouping a type map by type yields a partition of its features, also as the
      group map of any other type map over the same features. */
  lemma GroupByTypePartitions<T, U>(typeMap: map<string, T>, other: map<string, U>)
    requires other.Keys == typeMap.Keys
    ensures Partitioned(FeatureMetadata(other, GroupByType(typeMap)))
  {
    var groups := GroupByType(typeMap);
    forall f | f in typeMap
      ensures exists t :: t in groups && f in groups[t]
    {
      assert typeMap[f] in typeMap.Values;
      assert f in groups[typeMap[f]];
    }
  }

  /** Drops the given features from the type map and from every group
      (a name that is not tracked is ignored). */
  function RemoveFeatures<T, G(==)>(m: FeatureMetadata<T, G>, fs: set<string>): (r: FeatureMetadata<T, G>)
    ensures r.typeMap.Keys == m.typeMap.Keys - fs
    ensures forall f :: f in r.typeMap ==> r.typeMap[f] == m.typeMap[f]
    ensures r.groups.Keys == m.groups.Keys
    ensures forall g :: g in r.groups ==> r.groups[g] == m.groups[g] - fs
  {
    FeatureMetadata(m.typeMap - fs, map g | g in m.groups :: m.groups[g] - fs)
  }

  /** Removing nothing is the identity. */
  lemma RemoveNothing<T, G>(m: FeatureMetadata<T, G>)
    ensures RemoveFeatures(m, {}) == m
  {
    var r := RemoveFeatures(m, {});
    assert r.typeMap == m.typeMap;
    assert forall g :: g in m.groups ==> r.groups[g] == m.groups[g];
    assert r.groups == m.groups;
  }

  /** Removal keeps a partition a partition. */
  lemma RemovePreservesPartition<T, G>(m: FeatureMetadata<T, G>, fs: set<string>)
    ensures Partitioned(m) ==> Partitioned(RemoveFeatures(m, fs))
  {
    var r := RemoveFeatures(m, fs);
    forall f | Partitioned(m) && f in r.typeMap
      ensures exists g :: g in r.groups && f in r.groups[g]
    {
      var g :| g in m.groups && f in m.groups[g];
      assert f in r.groups[g];
    }
  }
}
