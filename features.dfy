/**
 * The candidate test of a tree node: two neighbour slots of a neighbourhood
 * and the index of a projection operation.
 */
module FeatureRecord {

  class Features {
    var point1: int
    var point2: int
    var featType: int

    /** A fresh record has both points and the projection type at zero. */
    constructor ()
      ensures point1 == 0 && point2 == 0 && featType == 0
    {
      point1 := 0;
      point2 := 0;
      featType := 0;
    }

    /**
     * The record's assignment operator: it copies the two points of feat and
     * keeps this record's own projection type; feat itself is left as it was
     * (also when feat is this very record).
     */
    method Assign(feat: Features)
      modifies this
      ensures point1 == old(feat.point1) && point2 == old(feat.point2)
      ensures featType == old(featType)
      ensures feat.point1 == old(feat.point1) && feat.point2 == old(feat.point2)
      ensures feat.featType == old(feat.featType)
    {
      point1 := feat.point1;
      point2 := feat.point2;
    }
  }
}
