/**
 * The `Section` and `Material` models of classes.php, over in-memory tables.
 *
 * The two MySQL tables are maps from row id to row; AUTO_INCREMENT is a
 * counter per table.  Both models share one `Database`, which also holds the
 * upload directory, because deleting rows releases their images.
 * A `materials.section_id` that names a missing section is possible (nothing
 * checks it on insert), and `Material::getById` joins `sections`, so such a
 * material is "not found".  Deleting a section removes its materials with
 * it: the doc comment at classes.php:72 relies on the schema's cascading
 * foreign key.
 */
module Models {
  import opened Php
  import Uploads

  datatype SectionRow = SectionRow(name: string, slug: string)

  /** A `materials` row, and equally the `$data` array handed to
      `Material::create` / `update`: `None` is SQL NULL (an absent or null
      array entry, which `?? null` turns into NULL). */
  datatype MaterialRow = MaterialRow(
    sectionId: int,
    title: string,
    description: Option<string>,
    fileType: string,
    fileUrl: Option<string>,
    imagePath: Option<string>)

  /** One row of `Material::getById`: the material joined with its section. */
  datatype MaterialView = MaterialView(material: MaterialRow, section: SectionRow)

  /** The image names a set of materials own (their truthy `image_path`s). */
  function ImagesOf(materials: map<int, MaterialRow>, ids: set<int>): set<string>
  {
    set k | k in ids && k in materials && Truthy(materials[k].imagePath) :: materials[k].imagePath.value
  }

  /** The ids of the materials of one section (`Material::getBySectionId`). */
  function MaterialsOf(materials: map<int, MaterialRow>, sectionId: int): (ids: set<int>)
    ensures forall k :: k in ids <==> k in materials && materials[k].sectionId == sectionId
  {
    set k | k in materials && materials[k].sectionId == sectionId
  }

  /** The rows that survive deleting one section and its materials. */
  function WithoutSection(materials: map<int, MaterialRow>, sectionId: int): (m: map<int, MaterialRow>)
    ensures forall k :: k in m <==> k in materials && materials[k].sectionId != sectionId
    ensures forall k :: k in m ==> m[k] == materials[k]
  {
    map k | k in materials && materials[k].sectionId != sectionId :: materials[k]
  }

  /** Some element of a non-empty set: the loop over `getBySectionId`'s
      rows visits them in an order the model leaves open. */
  method Choose<T>(s: set<T>) returns (x: T)
    requires s != {}
    ensures x in s
  {
    x :| x in s;
  }

  lemma HasElement<T>(s: set<T>)
    requires |s| > 0
    ensures exists x :: x in s
  {
    var x :| x in s;
  }

  lemma SubsetCard<T>(a: set<T>, b: set<T>)
    requires a <= b
    ensures |a| <= |b|
    decreases |b|
  {
    if a != {} {
      var x :| x in a;
      SubsetCard(a - {x}, b - {x});
    }
  }

  class Database {
    var sections: map<int, SectionRow>
    var materials: map<int, MaterialRow>
    /** The next AUTO_INCREMENT value of each table. */
    var nextSectionId: int
    var nextMaterialId: int
    /** The upload directory. */
    const disk: Uploads.Disk

    /** Ids are positive and below the AUTO_INCREMENT counter. */
    ghost predicate Valid()
      reads this
    {
      && 0 < nextSectionId && 0 < nextMaterialId
      && (forall k :: k in sections ==> 0 < k < nextSectionId)
      && (forall k :: k in materials ==> 0 < k < nextMaterialId)
    }

    constructor (disk: Uploads.Disk)
      ensures Valid() && this.disk == disk
      ensures sections == map[] && materials == map[]
    {
      this.disk := disk;
      sections := map[];
      materials := map[];
      nextSectionId := 1;
      nextMaterialId := 1;
    }

    /** `Material::getById`: the material and its section, if both rows
        exist (the query is an inner join). */
    function GetById(id: int): (r: Option<MaterialView>)
      reads this
      ensures r.Some? <==> id in materials && materials[id].sectionId in sections
      ensures r.Some? ==> r.value.material == materials[id] && r.value.section == sections[materials[id].sectionId]
    {
      if id in materials && materials[id].sectionId in sections
      then Some(MaterialView(materials[id], sections[materials[id].sectionId]))
      else None
    }

    /** `Section::slugExists`: counts the sections with that slug, leaving
        out `excludeId` only when it is truthy (not null, not 0). */
    function SlugExists(slug: string, excludeId: Option<int>): (b: bool)
      reads this
      ensures b <==> exists k :: k in sections && sections[k].slug == slug
                                 && (excludeId.None? || excludeId.value == 0 || k != excludeId.value)
    {
      var matching := set k | k in sections && sections[k].slug == slug
                             && (excludeId.None? || excludeId.value == 0 || k != excludeId.value);
      if |matching| > 0 then
        HasElement(matching);
        true
      else
        assert forall k :: (k in sections && sections[k].slug == slug
                            && (excludeId.None? || excludeId.value == 0 || k != excludeId.value)) ==> k in matching;
        false
    }

    /** `Section::getMaterialCount` */
    function MaterialCount(id: int): (n: nat)
      reads this
      ensures n == |MaterialsOf(materials, id)|
      ensures n <= Count()
    {
      SubsetCard(MaterialsOf(materials, id), materials.Keys);
      |MaterialsOf(materials, id)|
    }

    /** `Material::getCount` */
    function Count(): (n: nat)
      reads this
      ensures n == |materials|
    {
      |materials.Keys|
    }

    /** `Section::create`: inserts one row and returns its new id. */
    method CreateSection(name: string, slug: string) returns (id: int)
      requires Valid()
      modifies this
      ensures Valid()
      ensures id == old(nextSectionId) && id !in old(sections) && id > 0
      ensures sections == old(sections)[id := SectionRow(name, slug)]
      ensures materials == old(materials) && nextMaterialId == old(nextMaterialId)
    {
      id := nextSectionId;
      sections := sections[id := SectionRow(name, slug)];
      nextSectionId := nextSectionId + 1;
    }

    /** `Section::update`: overwrites the row with that id, if any. */
    method UpdateSection(id: int, name: string, slug: string)
      requires Valid()
      modifies this
      ensures Valid()
      ensures sections == if id in old(sections) then old(sections)[id := SectionRow(name, slug)] else old(sections)
      ensures materials == old(materials)
      ensures nextSectionId == old(nextSectionId) && nextMaterialId == old(nextMaterialId)
    {
      if id in sections {
        sections := sections[id := SectionRow(name, slug)];
      }
    }

    /** `Section::delete`: releases the image of every material of the
        section, then deletes the section row; its materials go with it
        only when that row existed (the cascade acts on deleted rows). */
    method DeleteSection(id: int)
      requires Valid()
      modifies this, disk
      ensures Valid()
      ensures disk.files == old(disk.files) - ImagesOf(old(materials), MaterialsOf(old(materials), id))
      ensures sections == old(sections) - {id}
      ensures materials == if id in old(sections) then WithoutSection(old(materials), id) else old(materials)
      ensures nextSectionId == old(nextSectionId) && nextMaterialId == old(nextMaterialId)
    {
      var todo := MaterialsOf(materials, id);
      ghost var all := todo;
      while todo != {}
        invariant todo <= all
        invariant materials == old(materials) && sections == old(sections)
        invariant nextSectionId == old(nextSectionId) && nextMaterialId == old(nextMaterialId)
        invariant disk.files == old(disk.files) - ImagesOf(materials, all - todo)
        decreases |todo|
      {
        var k := Choose(todo);
        var m := materials[k];
        if m.imagePath.Some? && !IsEmpty(m.imagePath.value) {
          disk.DeleteImage(m.imagePath.value);
        }
        assert ImagesOf(materials, all - (todo - {k}))
            == ImagesOf(materials, all - todo) + ImagesOf(materials, {k});
        todo := todo - {k};
      }
      if id in sections {
        materials := WithoutSection(materials, id);
      }
      sections := sections - {id};
    }

    /** `Material::create`: stores the six fields as given ("" stays "",
        null stays NULL) and returns the new id. */
    method CreateMaterial(data: MaterialRow) returns (id: int)
      requires Valid()
      modifies this
      ensures Valid()
      ensures id == old(nextMaterialId) && id !in old(materials) && id > 0
      ensures materials == old(materials)[id := data]
      ensures sections == old(sections) && nextSectionId == old(nextSectionId)
    {
      id := nextMaterialId;
      materials := materials[id := data];
      nextMaterialId := nextMaterialId + 1;
    }

    /** `Material::update`: overwrites all six fields of the row with that
        id and no other row. */
    method UpdateMaterial(id: int, data: MaterialRow)
      requires Valid()
      modifies this
      ensures Valid()
      ensures materials == if id in old(materials) then old(materials)[id := data] else old(materials)
      ensures sections == old(sections)
      ensures nextSectionId == old(nextSectionId) && nextMaterialId == old(nextMaterialId)
    {
      if id in materials {
        materials := materials[id := data];
      }
    }

    /** `Material::delete`: releases the image only when `getById` finds the
        material and its `image_path` is truthy, then deletes that row only. */
    method DeleteMaterial(id: int)
      requires Valid()
      modifies this, disk
      ensures Valid()
      ensures var v := old(GetById(id));
              disk.files == if v.Some? && Truthy(v.value.material.imagePath)
                            then old(disk.files) - {v.value.material.imagePath.value}
                            else old(disk.files)
      ensures materials == old(materials) - {id}
      ensures sections == old(sections)
      ensures nextSectionId == old(nextSectionId) && nextMaterialId == old(nextMaterialId)
    {
      var material := GetById(id);
      if material.Some? && Truthy(material.value.material.imagePath) {
        disk.DeleteImage(material.value.material.imagePath.value);
      }
      materials := materials - {id};
    }
  }
}
