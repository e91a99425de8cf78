/**
 Abstract view of the JSON document behind a configuration manager. The
 serialisation itself (pydantic's `parse_file` and `.json()`) is not modelled:
 the file either does not exist, exists but does not parse, or parses to a
 document of type `C`.
 */
module Storage {

  datatype File<C> = Missing | Unparsable | Holds(doc: C)
}
