/** The abstract Schema Provider: what the ORM's reflection exposes about each model class,
    reduced to plain data. Resolving a class name (`constantize`) is a map lookup; a name
    that is not a key does not resolve. */
module SchemaModel {
  import opened Wrappers

  /** The association macros of the ORM. */
  datatype Macro = BelongsTo | HasMany | HasOne | HasAndBelongsToMany

  /** A table column: its name, its column type symbol (`:integer`, `:string`, ...) and
      whether it admits NULL. */
  datatype Column = Column(name: string, colType: string, nullable: bool)

  /** One association declaration as reflection reports it. `asRole` is the `as:` option;
      `target` is the name of the associated class (unused for a polymorphic `belongs_to`,
      whose class is not fixed). */
  datatype Declaration = Declaration(
    name: string,
    macro: Macro,
    polymorphic: bool,
    asRole: Option<string>,
    target: string)

  /** A model class: its table name, its columns and its association declarations, in
      declaration order. */
  datatype Entity = Entity(table: string, columns: seq<Column>, decls: seq<Declaration>)

  /** Class name to class. */
  type Schema = map<string, Entity>

  /** `options[:as].present?`: the option is given and is not the empty symbol. */
  predicate HasAsRole(d: Declaration) {
    d.asRole.Some? && d.asRole.value != ""
  }

  /** The reverse side of a polymorphic association: `has_many`/`has_one ..., as: :role`. */
  predicate IsReversePolymorphic(d: Declaration) {
    (d.macro == HasMany || d.macro == HasOne) && HasAsRole(d)
  }

  /** `belongs_to :role, polymorphic: true`. */
  predicate IsPolymorphicBelongsTo(d: Declaration) {
    d.macro == BelongsTo && d.polymorphic
  }
}
