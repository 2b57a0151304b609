/**
 * The element model the two-element scripts build: AntennaModel() with
 * add_element and add_feedpoint, as the scripts call them. The library's own
 * definitions of these are not part of this model, so the records hold only
 * their constructor arguments and the model only records the calls, in order.
 */
module Elements {

  /** AntennaElement(x1, y1, z1, x2, y2, z2, segments, radius): one straight wire. */
  datatype Element = Element(x1: real, y1: real, z1: real, x2: real, y2: real, z2: real,
                             segments: int, radius: real)

  /** add_feedpoint(element_index, segment). */
  datatype Feedpoint = Feedpoint(elementIndex: int, segment: int)

  /** What a model holds: its elements and feedpoints, in the order they were added. */
  datatype Layout = Layout(elements: seq<Element>, feedpoints: seq<Feedpoint>)

  /** AntennaModel() as the scripts use it: a growing list of elements and feedpoints. */
  class Model {
    var elements: seq<Element>
    var feedpoints: seq<Feedpoint>

    /** The model's contents, as the solver is handed them. */
    function Contents(): Layout
      reads this
    {
      Layout(elements, feedpoints)
    }

    constructor ()
      ensures elements == [] && feedpoints == []
    {
      elements := [];
      feedpoints := [];
    }

    method AddElement(e: Element)
      modifies this
      ensures elements == old(elements) + [e]
      ensures feedpoints == old(feedpoints)
    {
      elements := elements + [e];
    }

    method AddFeedpoint(elementIndex: int, segment: int)
      modifies this
      ensures feedpoints == old(feedpoints) + [Feedpoint(elementIndex, segment)]
      ensures elements == old(elements)
    {
      feedpoints := feedpoints + [Feedpoint(elementIndex, segment)];
    }
  }

  /**
   * (segments + 1) // 2, the segment every builder feeds. For an odd count
   * it is the middle segment: as many segments lie before it as after it.
   */
  function CentreSegment(segments: int): (c: int)
    ensures segments >= 1 ==> 1 <= c <= segments
    ensures segments % 2 == 1 ==> c - 1 == segments - c
  {
    (segments + 1) / 2
  }

  /** The 21-segment elements of the scripts are fed at segment 11. */
  lemma CentreOfTwentyOne()
    ensures CentreSegment(21) == 11
  {
  }

  /** A wire parallel to y at (x, 0), centred on the boom, with the given total length. */
  function Crosswise(x: real, length: real, segments: int, radius: real): Element
  {
    Element(x, -(length / 2.0), 0.0, x, length / 2.0, 0.0, segments, radius)
  }

  /**
   * The layout every two-element builder produces: the driven element at
   * x = 0 added first, one feedpoint on it at the centre segment, then the
   * reflector `spacing` behind it on x.
   */
  function TwoElementBeam(drivenLength: real, spacing: real, reflectorLength: real,
                          segments: int, radius: real): Layout
  {
    Layout([Crosswise(0.0, drivenLength, segments, radius),
            Crosswise(-spacing, reflectorLength, segments, radius)],
           [Feedpoint(0, CentreSegment(segments))])
  }

  /** The length of an element parallel to y. */
  function Span(e: Element): real { e.y2 - e.y1 }

  /** Both ends at the same x and z, at opposite y: the element is centred on the x axis. */
  predicate Symmetric(e: Element) { e.x1 == e.x2 && e.z1 == e.z2 && e.y1 == -e.y2 }

  /**
   * What a two-element layout means: two symmetric elements of the requested
   * lengths at height 0, sharing segments and radius, the reflector exactly
   * `spacing` behind the driven element, and one feedpoint, on the driven
   * element, at its middle segment when the segment count is odd.
   */
  lemma TwoElementGeometry(drivenLength: real, spacing: real, reflectorLength: real,
                           segments: int, radius: real)
    ensures var l := TwoElementBeam(drivenLength, spacing, reflectorLength, segments, radius);
      |l.elements| == 2 && |l.feedpoints| == 1
      && Symmetric(l.elements[0]) && Symmetric(l.elements[1])
      && Span(l.elements[0]) == drivenLength && Span(l.elements[1]) == reflectorLength
      && l.elements[0].x1 == 0.0 && l.elements[0].x1 - l.elements[1].x1 == spacing
      && l.elements[0].z1 == 0.0 && l.elements[1].z1 == 0.0
      && (forall e | e in l.elements :: e.segments == segments && e.radius == radius)
      && l.feedpoints[0].elementIndex == 0
      && (segments >= 1 ==> 1 <= l.feedpoints[0].segment <= segments)
      && (segments % 2 == 1 ==> l.feedpoints[0].segment - 1 == segments - l.feedpoints[0].segment)
  {
  }

  /** A reflector at least as long as the driven element overhangs it at both ends. */
  lemma ReflectorOverhangs(drivenLength: real, spacing: real, reflectorLength: real,
                           segments: int, radius: real)
    requires drivenLength <= reflectorLength
    ensures var l := TwoElementBeam(drivenLength, spacing, reflectorLength, segments, radius);
      l.elements[1].y1 <= l.elements[0].y1 && l.elements[0].y2 <= l.elements[1].y2
  {
  }
}
