/** The Jackson ObjectMapper, reduced to the four capabilities the core calls.
    V stands for the Java values a document can be built from or converted to. */
module ObjectMappers {
  import opened Wrappers
  import opened JsonTree

  datatype Mapper<!V> = Mapper(
    /** readTree(String); None when it throws JsonProcessingException. */
    readTree: string -> Option<Json>,
    /** writeValueAsString(Object); None when it throws. */
    writeValueAsString: V -> Option<string>,
    /** valueToTree(Object). */
    valueToTree: V -> Json,
    /** convertValue(JsonNode, Class): the target class is named by a string; None when it throws. */
    convertValue: (Json, string) -> Option<V>)
}
