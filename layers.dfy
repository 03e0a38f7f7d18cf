/**
  The layer lookups of the classifier dialog. The registry of map layers is a map from
  layer id to layer, iterated in key order; it is modelled as the sequence of its layers
  in that order, and a lookup returns the position of the layer it finds.
*/
module Layers {
  import opened Options

  datatype LayerType = VectorLayer | RasterLayer | PluginLayer

  /** The part of a map layer the lookups look at. */
  datatype MapLayer = MapLayer(layerType: LayerType, name: string, usesProvider: bool, providerKey: string)

  predicate IsNamedVector(l: MapLayer, name: string)
  {
    l.layerType == VectorLayer && l.name == name
  }

  /** A raster layer read directly by GDAL or through the "gdal" provider. */
  predicate IsGdalRaster(l: MapLayer)
  {
    l.layerType == RasterLayer && !(l.usesProvider && l.providerKey != "gdal")
  }

  /** vectorLayerByName: the first vector layer called `name`, or none. */
  method VectorLayerByName(layers: seq<MapLayer>, name: string) returns (r: Option<nat>)
    ensures r.Some? ==> r.value < |layers| && IsNamedVector(layers[r.value], name)
    ensures r.Some? ==> forall k :: 0 <= k < r.value ==> !IsNamedVector(layers[k], name)
    ensures r.None? <==> forall k :: 0 <= k < |layers| ==> !IsNamedVector(layers[k], name)
  {
    var i := 0;
    while i < |layers|
      invariant 0 <= i <= |layers|
      invariant forall k :: 0 <= k < i ==> !IsNamedVector(layers[k], name)
    {
      if layers[i].layerType == VectorLayer && layers[i].name == name {
        return Some(i);
      }
      i := i + 1;
    }
    return None;
  }

  /**
    rasterLayerByName as written: the first raster layer that is not served by a provider
    other than "gdal". The `name` argument takes no part in the search.
  */
  method RasterLayerByName(layers: seq<MapLayer>, name: string) returns (r: Option<nat>)
    ensures r.Some? ==> r.value < |layers| && IsGdalRaster(layers[r.value])
    ensures r.Some? ==> forall k :: 0 <= k < r.value ==> !IsGdalRaster(layers[k])
    ensures r.None? <==> forall k :: 0 <= k < |layers| ==> !IsGdalRaster(layers[k])
  {
    var i := 0;
    while i < |layers|
      invariant 0 <= i <= |layers|
      invariant forall k :: 0 <= k < i ==> !IsGdalRaster(layers[k])
    {
      if layers[i].layerType == RasterLayer {
        if layers[i].usesProvider && layers[i].providerKey != "gdal" {
          i := i + 1;
          continue;
        }
        return Some(i);
      }
      i := i + 1;
    }
    return None;
  }

  /**
    With two GDAL rasters "a" and "b", asking for "b" yields the layer called "a" (position 0),
    while the intended lookup yields "b" (position 1).
  */
  method RasterLookupIgnoresName() returns (layers: seq<MapLayer>, query: string, r: Option<nat>, intended: Option<nat>)
    ensures layers == [MapLayer(RasterLayer, "a", false, ""), MapLayer(RasterLayer, "b", false, "")]
    ensures query == "b"
    ensures r == Some(0) && layers[r.value].name == "a" && layers[r.value].name != query
    ensures intended == Some(1) && layers[intended.value].name == query
  {
    layers := [MapLayer(RasterLayer, "a", false, ""), MapLayer(RasterLayer, "b", false, "")];
    query := "b";
    assert IsGdalRaster(layers[0]) && IsGdalRaster(layers[1]) && layers[0].name != query;
    r := RasterLayerByName(layers, query);
    intended := RasterLayerByNameIntended(layers, query);
  }

  /** The evidently intended rasterLayerByName: the first GDAL raster layer called `name`, or none. */
  method RasterLayerByNameIntended(layers: seq<MapLayer>, name: string) returns (r: Option<nat>)
    ensures r.Some? ==> r.value < |layers| && IsGdalRaster(layers[r.value]) && layers[r.value].name == name
    ensures r.Some? ==> forall k :: 0 <= k < r.value ==> !(IsGdalRaster(layers[k]) && layers[k].name == name)
    ensures r.None? <==> forall k :: 0 <= k < |layers| ==> !(IsGdalRaster(layers[k]) && layers[k].name == name)
  {
    var i := 0;
    while i < |layers|
      invariant 0 <= i <= |layers|
      invariant forall k :: 0 <= k < i ==> !(IsGdalRaster(layers[k]) && layers[k].name == name)
    {
      if layers[i].layerType == RasterLayer && layers[i].name == name {
        if layers[i].usesProvider && layers[i].providerKey != "gdal" {
          i := i + 1;
          continue;
        }
        return Some(i);
      }
      i := i + 1;
    }
    return None;
  }
}
